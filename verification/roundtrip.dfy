/**
 * What the encoders and the decoder promise each other: the shape of every
 * image an encoder produces and the fields parseHexString reads back from
 * it.
 */
module RoundTrip {
  import opened Results
  import opened Text
  import opened BitStrings
  import opened SevenBit
  import opened Tables
  import opened Checksum
  import opened Encoder
  import opened Decoder
  import opened Facade

  // ---------------------------------------------------------------------
  // Bit layout of the encoders' output

  /** A value below 2^w written by the encoders takes exactly w bits. */
  lemma {:induction false} FieldWidth(v: nat, w: nat)
    requires w >= 1 && v < Pow2(w)
    ensures |ValueBits(v, w)| == w
  {
    NatToBitsLength(v, w);
  }

  lemma SmallPowers()
    ensures Pow2(3) == 8 && Pow2(8) == 256
  {
    Pow2Add(3, 5);
    assert Pow2(5) == 32;
  }

  /**
   * The first 58 bits of an SGTIN image, followed by the serial field:
   * header, filter, partition, company prefix and item reference each
   * read back at its own offset.
   */
  lemma {:induction false} SgtinLayout(header: nat, filter: nat, p: int, c: nat, i: nat, tail: string)
    requires header < 256 && filter < 8 && IsPartition(p)
    requires c < Pow2(CompanyPrefixBits(p)) && i < Pow2(ItemReferenceBits(p))
    ensures var b := SgtinBits(header, filter, p, c, i) + tail;
      var cpEnd := 14 + CompanyPrefixBits(p);
      |b| == 58 + |tail| && IsBits(SgtinBits(header, filter, p, c, i))
      && BitsToNat(b[..8]) == header && BitsToNat(b[8..11]) == filter && BitsToNat(b[11..14]) == p
      && BitsToNat(b[14..cpEnd]) == c && BitsToNat(b[cpEnd..58]) == i && b[58..] == tail
  {
    SgtinParts(header, filter, p, c, i);
    var h, f, q := ValueBits(header, 8), ValueBits(filter, 3), ValueBits(p, 3);
    var cb, ib := ValueBits(c, CompanyPrefixBits(p)), ValueBits(i, ItemReferenceBits(p));
    Slices(h, f, q, cb, ib, tail);
    SgtinPartsBits(h, f, q, cb, ib);
  }

  /** The five leading fields of an SGTIN image, each in its own width. */
  lemma {:induction false} SgtinParts(header: nat, filter: nat, p: int, c: nat, i: nat)
    requires header < 256 && filter < 8 && IsPartition(p)
    requires c < Pow2(CompanyPrefixBits(p)) && i < Pow2(ItemReferenceBits(p))
    ensures var h, f, q := ValueBits(header, 8), ValueBits(filter, 3), ValueBits(p, 3);
      var cb, ib := ValueBits(c, CompanyPrefixBits(p)), ValueBits(i, ItemReferenceBits(p));
      SgtinBits(header, filter, p, c, i) == h + f + q + cb + ib
      && |h| == 8 && |f| == 3 && |q| == 3 && |cb| == CompanyPrefixBits(p) && |cb| + |ib| == 44
  {
    SmallPowers();
    PartitionLayout(p);
    FieldWidth(header, 8);
    FieldWidth(filter, 3);
    FieldWidth(p, 3);
    FieldWidth(c, CompanyPrefixBits(p));
    FieldWidth(i, ItemReferenceBits(p));
  }

  lemma {:induction false} SgtinPartsBits(h: string, f: string, q: string, cb: string, ib: string)
    requires IsBits(h) && IsBits(f) && IsBits(q) && IsBits(cb) && IsBits(ib)
    ensures IsBits(h + f + q + cb + ib)
  {
    BitsConcat(h, f);
    BitsConcat(h + f, q);
    BitsConcat(h + f + q, cb);
    BitsConcat(h + f + q + cb, ib);
  }

  /** An SGTIN image's leading fields followed by a serial field of bits: its length, its bits, its header byte. */
  lemma {:induction false} SgtinPartsShape(h: string, f: string, q: string, cb: string, ib: string, tail: string)
    requires |h| == 8 && |f| == 3 && |q| == 3 && |cb| + |ib| == 44
    requires IsBits(h) && IsBits(f) && IsBits(q) && IsBits(cb) && IsBits(ib) && IsBits(tail)
    ensures var b := h + f + q + cb + ib + tail;
      |b| == 58 + |tail| && IsBits(b) && b[..8] == h
  {
    SgtinPartsBits(h, f, q, cb, ib);
    BitsConcat(h + f + q + cb + ib, tail);
    var b := h + f + q + cb + ib + tail;
    assert b[..8] == h;
  }

  /** The decoder on an SGTIN image given as its leading fields and its serial field. */
  lemma {:induction false} DecodeSgtinParts(enc: Encoding, h: string, f: string, q: string, cb: string, ib: string, tail: string,
                         filter: nat, p: nat, c: nat, i: nat)
    requires enc == Sgtin96 || enc == Sgtin198
    requires IsPartition(p) && |h| == 8 && |f| == 3 && |q| == 3 && |cb| == CompanyPrefixBits(p) && |cb| + |ib| == 44
    requires BitsToNat(h) == enc.Header() && BitsToNat(f) == filter && BitsToNat(q) == p
    requires BitsToNat(cb) == c && BitsToNat(ib) == i
    ensures DecodeFields(h + f + q + cb + ib + tail) == Success(SgtinFields(enc, filter, p, c, i, SerialText(enc, tail)))
  {
    Slices(h, f, q, cb, ib, tail);
    DecodeSgtinSlices(enc, h + f + q + cb + ib + tail, filter, p, c, i);
  }

  /** Where the five leading fields of an SGTIN image sit in the bit string. */
  lemma {:induction false} Slices(h: string, f: string, q: string, cb: string, ib: string, tail: string)
    requires |h| == 8 && |f| == 3 && |q| == 3 && |cb| + |ib| == 44
    ensures var b := h + f + q + cb + ib + tail;
      var cpEnd := 14 + |cb|;
      |b| == 58 + |tail| && b[..8] == h && b[8..11] == f && b[11..14] == q
      && b[14..cpEnd] == cb && b[cpEnd..58] == ib && b[58..] == tail
  {
    var b := h + f + q + cb + ib + tail;
    assert b[..8] == h;
    assert b[8..11] == f;
    assert b[11..14] == q;
    assert b[14..14 + |cb|] == cb;
    assert b[14 + |cb|..58] == ib;
    assert b[58..] == tail;
  }

  lemma {:induction false} BitsConcat(x: string, y: string)
    requires IsBits(x) && IsBits(y)
    ensures IsBits(x + y)
  {
    forall i | 0 <= i < |x + y|
      ensures (x + y)[i] == '0' || (x + y)[i] == '1'
    {
      if i < |x| {
        assert (x + y)[i] == x[i];
      } else {
        assert (x + y)[i] == y[i - |x|];
      }
    }
  }

  /** An image whose bit string is a whole number of nibbles reads back as that bit string. */
  lemma {:induction false} AlignedImage(b: string)
    requires IsBits(b) && |b| % 4 == 0
    ensures HexToBits(ToUpper(HexOfBits(b))) == Success(b)
  {
    HexImageRoundTrip(b);
    WidenedAligned(b);
  }

  /** The encoders write upper-case hex digits only. */
  lemma {:induction false} UpperHexImage(b: string)
    ensures forall k :: 0 <= k < |ToUpper(HexOfBits(b))| ==>
      var c := ToUpper(HexOfBits(b))[k]; '0' <= c <= '9' || 'A' <= c <= 'F'
  {
    ImageDigits(b);
  }

  /** The first two digits of an image whose first byte is h. */
  lemma {:induction false} ImageHeader(b: string, h: nat, hi: char, lo: char)
    requires |b| >= 8 && BitsToNat(b[..8]) == h
    requires h / 16 < 10 && h % 16 < 10 && hi == DigitChar(h / 16) && lo == DigitChar(h % 16)
    ensures |ToUpper(HexOfBits(b))| >= 2 && ToUpper(HexOfBits(b))[..2] == [hi, lo]
  {
    HeaderDigits(b, h);
  }

  /** 2^38, the SGTIN-96 serial field's range, is the encoder's serial limit. */
  lemma SerialField()
    ensures Pow2(38) == SerialLimit
  {
    Powers();
    Pow2Add(20, 18);
  }

  // ---------------------------------------------------------------------
  // Encoder checks

  /**
   * The SGTIN encoders' checks on partition, company prefix and item
   * reference, in source order. The width checks compare the bit length of
   * the parsed value, so a value below 2^w passes however many leading
   * zeros its text has.
   */
  lemma {:induction false} ReferenceChecks(p: int, cp: string, ir: string)
    requires NumericText(cp) && NumericText(ir)
    ensures !IsPartition(p) ==> CheckedReferences(p, cp, ir) == Failure(InvalidPartition)
    ensures IsPartition(p) && ParseInt(cp).Failure? ==> CheckedReferences(p, cp, ir) == Failure(MalformedNumber)
    ensures IsPartition(p) && ParseInt(cp).Success? && ParseInt(cp).value >= Pow2(CompanyPrefixBits(p)) ==>
      CheckedReferences(p, cp, ir) == Failure(CompanyPrefixTooLong)
    ensures (IsPartition(p) && ParseInt(cp).Success? && ParseInt(cp).value < Pow2(CompanyPrefixBits(p))
             && ParseInt(ir).Failure?) ==> CheckedReferences(p, cp, ir) == Failure(MalformedNumber)
    ensures (IsPartition(p) && ParseInt(cp).Success? && ParseInt(cp).value < Pow2(CompanyPrefixBits(p))
             && ParseInt(ir).Success? && ParseInt(ir).value >= Pow2(ItemReferenceBits(p))) ==>
      CheckedReferences(p, cp, ir) == Failure(ItemReferenceTooLong)
    ensures CheckedReferences(p, cp, ir).Success? <==>
      IsPartition(p) && ParseInt(cp).Success? && ParseInt(cp).value < Pow2(CompanyPrefixBits(p))
      && ParseInt(ir).Success? && ParseInt(ir).value < Pow2(ItemReferenceBits(p))
    ensures CheckedReferences(p, cp, ir).Success? ==>
      CheckedReferences(p, cp, ir).value == (ParseInt(cp).value, ParseInt(ir).value)
  {
    if IsPartition(p) {
      PartitionLayout(p);
      if ParseInt(cp).Success? {
        NatToBitsLength(ParseInt(cp).value, CompanyPrefixBits(p));
      }
      if ParseInt(ir).Success? {
        NatToBitsLength(ParseInt(ir).value, ItemReferenceBits(p));
      }
    }
  }

  /**
   * createSGTIN_96HexEPC's rejections in source order: a serial
   * Long.parseLong rejects, then a serial above 2^38, then a filter above 7,
   * then the reference checks.
   */
  lemma {:induction false} Sgtin96Rejects(filter: nat, p: int, cp: string, ir: string, serial: string)
    requires NumericText(cp) && NumericText(ir) && NumericText(serial)
    ensures ParseLong(serial).Failure? ==> Sgtin96Encoding(filter, p, cp, ir, serial) == Failure(SerialNotNumeric)
    ensures ParseLong(serial).Success? && ParseLong(serial).value > SerialLimit ==>
      Sgtin96Encoding(filter, p, cp, ir, serial) == Failure(SerialOutOfRange)
    ensures ParseLong(serial).Success? && ParseLong(serial).value <= SerialLimit && filter > 7 ==>
      Sgtin96Encoding(filter, p, cp, ir, serial) == Failure(FilterOutOfRange)
    ensures (ParseLong(serial).Success? && ParseLong(serial).value <= SerialLimit && filter <= 7
             && CheckedReferences(p, cp, ir).Failure?) ==>
      Sgtin96Encoding(filter, p, cp, ir, serial) == Failure(CheckedReferences(p, cp, ir).error)
  {
  }

  /** Past those checks the SGTIN-96 image is the chunk loop over the 58 leading bits and the serial field. */
  lemma {:induction false} Sgtin96Image(filter: nat, p: int, cp: string, ir: string, serial: string)
    requires NumericText(cp) && NumericText(ir) && NumericText(serial)
    requires ParseLong(serial).Success? && ParseLong(serial).value <= SerialLimit && filter <= 7
    requires CheckedReferences(p, cp, ir).Success?
    ensures var refs := CheckedReferences(p, cp, ir).value;
      var head := SgtinBits(48, filter, p, refs.0, refs.1);
      |head| == 58 && Sgtin96Encoding(filter, p, cp, ir, serial) == StrictImage(head + ValueBits(ParseLong(serial).value, 38))
  {
    var refs := CheckedReferences(p, cp, ir).value;
    ReferenceChecks(p, cp, ir);
    SgtinWidth(48, filter, p, refs.0, refs.1);
  }

  /** The chunk loop accepts the SGTIN-96 bit string exactly when the serial lies below 2^38. */
  lemma {:induction false} SerialImage(bin: string, head: string, sn: nat)
    requires sn <= SerialLimit && |head| == 58 && bin == head + ValueBits(sn, 38)
    ensures StrictImage(bin).Success? <==> sn < SerialLimit
    ensures sn == SerialLimit ==> StrictImage(bin) == Failure(IndexOutOfRange)
  {
    SerialBits(sn);
    var k := |ValueBits(sn, 38)|;
    assert |bin| == 58 + k;
    SerialWidthAligned(k);
    StrictLength(bin);
  }

  lemma {:induction false} SerialWidthAligned(k: nat)
    requires k == 38 || k == 39
    ensures (58 + k) % 4 == 0 <==> k == 38
  {
  }

  /**
   * Past those checks createSGTIN_96HexEPC encodes every serial below 2^38.
   * A serial of exactly 2^38 passes the range check but needs 39 bits; the
   * 97-bit string makes the chunk loop's last substring overrun.
   */
  lemma {:induction false} Sgtin96Accepts(filter: nat, p: int, cp: string, ir: string, serial: string)
    requires NumericText(cp) && NumericText(ir) && NumericText(serial)
    ensures (ParseLong(serial) == Success(SerialLimit) && filter <= 7 && CheckedReferences(p, cp, ir).Success?) ==>
      Sgtin96Encoding(filter, p, cp, ir, serial) == Failure(IndexOutOfRange)
    ensures Sgtin96Encoding(filter, p, cp, ir, serial).Success? <==>
      ParseLong(serial).Success? && ParseLong(serial).value < SerialLimit && filter <= 7
      && CheckedReferences(p, cp, ir).Success?
  {
    Sgtin96Rejects(filter, p, cp, ir, serial);
    if ParseLong(serial).Success? && ParseLong(serial).value <= SerialLimit && filter <= 7
      && CheckedReferences(p, cp, ir).Success? {
      var refs := CheckedReferences(p, cp, ir).value;
      var head := SgtinBits(48, filter, p, refs.0, refs.1);
      Sgtin96Image(filter, p, cp, ir, serial);
      SerialImage(head + ValueBits(ParseLong(serial).value, 38), head, ParseLong(serial).value);
    }
  }

  /** The SGTIN-96 chunk loop fails exactly on a bit string that is not a whole number of nibbles. */
  lemma {:induction false} StrictLength(bin: string)
    ensures StrictImage(bin).Success? <==> |bin| % 4 == 0
    ensures StrictImage(bin).Failure? ==> StrictImage(bin) == Failure(IndexOutOfRange)
  {
  }

  /** The serial field takes 38 bits below the limit and 39 bits at it. */
  lemma {:induction false} SerialBits(sn: nat)
    requires sn <= SerialLimit
    ensures |ValueBits(sn, 38)| == if sn == SerialLimit then 39 else 38
  {
    SerialField();
    NatToBitsLength(sn, 38);
    if sn == SerialLimit {
      NatToBitsLength(sn, 39);
      Pow2Add(38, 1);
      assert Pow2(1) == 2;
    }
  }

  // ---------------------------------------------------------------------
  // Decoding what the SGTIN encoders write

  /** The fields parseHexString reads from an SGTIN image holding these values. */
  function SgtinFields(enc: Encoding, filter: nat, p: nat, c: nat, i: nat, serial: string): Fields {
    Fields(enc, NatToDecimal(filter), NatToDecimal(p), PadLeft(NatToDecimal(c), 12 - p),
           SgtinReferences(PadLeft(NatToDecimal(i), p + 1), Some(serial)))
  }

  /**
   * The decoder reads back every leading field an SGTIN encoder writes; the
   * serial field is read as a number (SGTIN-96) or as 7-bit characters
   * (SGTIN-198).
   */
  lemma {:induction false} DecodeSgtin(enc: Encoding, filter: nat, p: nat, c: nat, i: nat, tail: string)
    requires enc == Sgtin96 || enc == Sgtin198
    requires filter < 8 && IsPartition(p) && c < Pow2(CompanyPrefixBits(p)) && i < Pow2(ItemReferenceBits(p))
    ensures DecodeFields(SgtinBits(enc.Header(), filter, p, c, i) + tail) ==
      Success(SgtinFields(enc, filter, p, c, i, SerialText(enc, tail)))
  {
    SgtinParts(enc.Header(), filter, p, c, i);
    var h, f, q := ValueBits(enc.Header(), 8), ValueBits(filter, 3), ValueBits(p, 3);
    var cb, ib := ValueBits(c, CompanyPrefixBits(p)), ValueBits(i, ItemReferenceBits(p));
    DecodeSgtinParts(enc, h, f, q, cb, ib, tail, filter, p, c, i);
  }

  /** How the decoder reads the serial field of an SGTIN image. */
  function SerialText(enc: Encoding, tail: string): string {
    if enc == Sgtin96 then DecimalField(tail, 12) else PadLeft(Unpack7(tail), 20)
  }

  /** The decoder on a bit string whose leading fields hold the given values. */
  lemma {:induction false} DecodeSgtinSlices(enc: Encoding, b: string, filter: nat, p: nat, c: nat, i: nat)
    requires enc == Sgtin96 || enc == Sgtin198
    requires IsPartition(p) && |b| >= 58
    requires BitsToNat(b[..8]) == enc.Header() && BitsToNat(b[8..11]) == filter && BitsToNat(b[11..14]) == p
    requires BitsToNat(b[14..14 + CompanyPrefixBits(p)]) == c && BitsToNat(b[14 + CompanyPrefixBits(p)..58]) == i
    ensures DecodeFields(b) == Success(SgtinFields(enc, filter, p, c, i, SerialText(enc, b[58..])))
  {
    var cpEnd := 14 + CompanyPrefixBits(p);
    HeaderStep(b, enc);
    FieldText(b[14..cpEnd], c, 12 - p);
    FieldText(b[cpEnd..58], i, p + 1);
    ReadSgtinReferences(enc, p, b);
  }

  /** Item reference and serial as the decoder reads them after the company prefix. */
  lemma {:induction false} ReadSgtinReferences(enc: Encoding, p: nat, b: string)
    requires enc == Sgtin96 || enc == Sgtin198
    requires IsPartition(p) && |b| >= 58
    ensures DecodeReferences(enc, p, b) ==
      Success(SgtinReferences(DecimalField(b[14 + CompanyPrefixBits(p)..58], p + 1), Some(SerialText(enc, b[58..]))))
  {
    if enc == Sgtin96 {
      assert DecodeReferences(Sgtin96, p, b) ==
        Success(SgtinReferences(DecimalField(b[14 + CompanyPrefixBits(p)..58], p + 1), Some(DecimalField(b[58..], 12))));
    } else {
      assert DecodeReferences(Sgtin198, p, b) ==
        Success(SgtinReferences(DecimalField(b[14 + CompanyPrefixBits(p)..58], p + 1), Some(PadLeft(Unpack7(b[58..]), 20))));
    }
  }

  /** An aligned bit string's image: its length, its first two digits, and what the decoder reads from it. */
  lemma {:induction false} AlignedImageParse(b: string, h: nat, hi: char, lo: char)
    requires IsBits(b) && |b| % 4 == 0 && |b| >= 8 && BitsToNat(b[..8]) == h
    requires h / 16 < 10 && h % 16 < 10 && hi == DigitChar(h / 16) && lo == DigitChar(h % 16)
    ensures var hex := ToUpper(HexOfBits(b));
      |hex| == |b| / 4 && hex[..2] == [hi, lo] && ParseFields(hex) == DecodeFields(b)
  {
    AlignedImage(b);
    ImageHeader(b, h, hi, lo);
  }

  /** Any encoder's image: its length, its first two digits, and the widened bits the decoder reads from it. */
  lemma {:induction false} ImageParse(b: string, h: nat, hi: char, lo: char)
    requires IsBits(b) && |b| >= 8 && BitsToNat(b[..8]) == h
    requires h / 16 < 10 && h % 16 < 10 && hi == DigitChar(h / 16) && lo == DigitChar(h % 16)
    ensures var hex := ToUpper(HexOfBits(b));
      |hex| == (|b| + 3) / 4 && hex[..2] == [hi, lo] && ParseFields(hex) == DecodeFields(Widened(b))
  {
    HexImageRoundTrip(b);
    ImageHeader(b, h, hi, lo);
  }

  /** The SGTIN-96 bit string of values in range decodes to those values. */
  lemma {:induction false} Sgtin96Decoded(filter: nat, p: nat, c: nat, i: nat, sn: nat)
    requires filter < 8 && IsPartition(p) && c < Pow2(CompanyPrefixBits(p)) && i < Pow2(ItemReferenceBits(p))
    requires sn < SerialLimit
    ensures var bin := SgtinBits(48, filter, p, c, i) + ValueBits(sn, 38);
      |bin| == 96 && IsBits(bin) && BitsToNat(bin[..8]) == 48
      && DecodeFields(bin) == Success(SgtinFields(Sgtin96, filter, p, c, i, PadLeft(NatToDecimal(sn), 12)))
  {
    SgtinParts(48, filter, p, c, i);
    SerialBits(sn);
    Sgtin96PartsDecoded(ValueBits(48, 8), ValueBits(filter, 3), ValueBits(p, 3),
      ValueBits(c, CompanyPrefixBits(p)), ValueBits(i, ItemReferenceBits(p)), ValueBits(sn, 38), filter, p, c, i, sn);
  }

  lemma {:induction false} Sgtin96PartsDecoded(h: string, f: string, q: string, cb: string, ib: string, tail: string,
                            filter: nat, p: nat, c: nat, i: nat, sn: nat)
    requires IsPartition(p) && |h| == 8 && |f| == 3 && |q| == 3 && |cb| == CompanyPrefixBits(p) && |cb| + |ib| == 44
    requires |tail| == 38
    requires IsBits(h) && IsBits(f) && IsBits(q) && IsBits(cb) && IsBits(ib) && IsBits(tail)
    requires BitsToNat(h) == 48 && BitsToNat(f) == filter && BitsToNat(q) == p
    requires BitsToNat(cb) == c && BitsToNat(ib) == i && BitsToNat(tail) == sn
    ensures var b := h + f + q + cb + ib + tail;
      |b| == 96 && IsBits(b) && BitsToNat(b[..8]) == 48
      && DecodeFields(b) == Success(SgtinFields(Sgtin96, filter, p, c, i, PadLeft(NatToDecimal(sn), 12)))
  {
    SgtinPartsShape(h, f, q, cb, ib, tail);
    DecodeSgtinParts(Sgtin96, h, f, q, cb, ib, tail, filter, p, c, i);
    FieldText(tail, sn, 12);
  }

  /** The image of such a bit string: 24 digits, the header 30, and the values read back. */
  lemma {:induction false} Sgtin96ImageParse(filter: nat, p: nat, c: nat, i: nat, sn: nat)
    requires filter < 8 && IsPartition(p) && c < Pow2(CompanyPrefixBits(p)) && i < Pow2(ItemReferenceBits(p))
    requires sn < SerialLimit
    ensures var hex := ToUpper(HexOfBits(SgtinBits(48, filter, p, c, i) + ValueBits(sn, 38)));
      |hex| == 24 && hex[..2] == "30"
      && ParseFields(hex) == Success(SgtinFields(Sgtin96, filter, p, c, i, PadLeft(NatToDecimal(sn), 12)))
  {
    SgtinParts(48, filter, p, c, i);
    SerialBits(sn);
    Sgtin96PartsImage(ValueBits(48, 8), ValueBits(filter, 3), ValueBits(p, 3),
      ValueBits(c, CompanyPrefixBits(p)), ValueBits(i, ItemReferenceBits(p)), ValueBits(sn, 38), filter, p, c, i, sn);
  }

  lemma {:induction false} Sgtin96PartsImage(h: string, f: string, q: string, cb: string, ib: string, tail: string,
                          filter: nat, p: nat, c: nat, i: nat, sn: nat)
    requires IsPartition(p) && |h| == 8 && |f| == 3 && |q| == 3 && |cb| == CompanyPrefixBits(p) && |cb| + |ib| == 44
    requires |tail| == 38
    requires IsBits(h) && IsBits(f) && IsBits(q) && IsBits(cb) && IsBits(ib) && IsBits(tail)
    requires BitsToNat(h) == 48 && BitsToNat(f) == filter && BitsToNat(q) == p
    requires BitsToNat(cb) == c && BitsToNat(ib) == i && BitsToNat(tail) == sn
    ensures var hex := ToUpper(HexOfBits(h + f + q + cb + ib + tail));
      |hex| == 24 && hex[..2] == "30"
      && ParseFields(hex) == Success(SgtinFields(Sgtin96, filter, p, c, i, PadLeft(NatToDecimal(sn), 12)))
  {
    Sgtin96PartsDecoded(h, f, q, cb, ib, tail, filter, p, c, i, sn);
    Sgtin96BitsImage(h + f + q + cb + ib + tail);
  }

  /** A 96-bit string with the header 48 has a 24-digit image starting with 30. */
  lemma {:induction false} Sgtin96BitsImage(b: string)
    requires IsBits(b) && |b| == 96 && BitsToNat(b[..8]) == 48
    ensures var hex := ToUpper(HexOfBits(b));
      |hex| == 24 && hex[..2] == "30" && ParseFields(hex) == DecodeFields(b)
  {
    AlignedImageParse(b, 48, '3', '0');
  }

  /**
   * What createSGTIN_96HexEPC writes, parseHexString reads back: a 24-digit
   * image starting with the header 30 whose company prefix, item reference
   * and serial are the parsed inputs, zero-filled to 12 - p, p + 1 and 12
   * digits.
   */
  lemma {:induction false} Sgtin96RoundTrip(filter: nat, p: int, cp: string, ir: string, serial: string, hex: string)
    requires NumericText(cp) && NumericText(ir) && NumericText(serial)
    requires Sgtin96Encoding(filter, p, cp, ir, serial) == Success(hex)
    ensures IsPartition(p) && ParseInt(cp).Success? && ParseInt(ir).Success? && ParseLong(serial).Success?
    ensures |hex| == 24 && hex[..2] == "30"
    ensures ParseFields(hex) == Success(SgtinFields(Sgtin96, filter, p, ParseInt(cp).value, ParseInt(ir).value,
                                                    PadLeft(NatToDecimal(ParseLong(serial).value), 12)))
  {
    Sgtin96Accepts(filter, p, cp, ir, serial);
    ReferenceChecks(p, cp, ir);
    var refs := CheckedReferences(p, cp, ir).value;
    var sn := ParseLong(serial).value;
    Sgtin96Image(filter, p, cp, ir, serial);
    Sgtin96ImageParse(filter, p, refs.0, refs.1, sn);
  }

  /**
   * Inputs written at the decoder's own widths (12 - p company prefix
   * digits, p + 1 item reference digits, 12 serial digits) come back
   * character for character.
   */
  lemma {:induction false} Sgtin96TextRoundTrip(filter: nat, p: int, cp: string, ir: string, serial: string, hex: string)
    requires NumericText(cp) && NumericText(ir) && NumericText(serial)
    requires Sgtin96Encoding(filter, p, cp, ir, serial) == Success(hex)
    requires |cp| == 12 - p && |ir| == p + 1 && |serial| == 12
    ensures Parse(hex) == Success(map[Header := "SGTIN_96", Filter := NatToDecimal(filter), Partition := NatToDecimal(p),
                                      CompanyPrefix := cp, ItemReference := ir, SerialNumber := serial])
  {
    Sgtin96TextFields(filter, p, cp, ir, serial, hex);
    Sgtin96Name();
    SgtinMap(Sgtin96, NatToDecimal(filter), NatToDecimal(p), cp, ir, serial);
  }

  lemma {:induction false} Sgtin96TextFields(filter: nat, p: int, cp: string, ir: string, serial: string, hex: string)
    requires NumericText(cp) && NumericText(ir) && NumericText(serial)
    requires Sgtin96Encoding(filter, p, cp, ir, serial) == Success(hex)
    requires |cp| == 12 - p && |ir| == p + 1 && |serial| == 12
    ensures p >= 0
    ensures ParseFields(hex) == Success(Fields(Sgtin96, NatToDecimal(filter), NatToDecimal(p), cp, SgtinReferences(ir, Some(serial))))
  {
    Sgtin96RoundTrip(filter, p, cp, ir, serial, hex);
    CanonicalFields(Sgtin96, filter, p, cp, ir, ParseInt(cp).value, ParseInt(ir).value, serial);
    CanonicalDecimal(serial);
  }

  /** Fields read back from digit strings of the decoder's widths are those digit strings. */
  lemma {:induction false} CanonicalFields(enc: Encoding, filter: nat, p: nat, cp: string, ir: string, c: nat, i: nat, serial: string)
    requires |cp| == 12 - p && |ir| == p + 1
    requires ParseInt(cp) == Success(c) && ParseInt(ir) == Success(i)
    ensures SgtinFields(enc, filter, p, c, i, serial) ==
      Fields(enc, NatToDecimal(filter), NatToDecimal(p), cp, SgtinReferences(ir, Some(serial)))
  {
    CanonicalDecimal(cp);
    CanonicalDecimal(ir);
  }

  /** The names the tag maps carry for the two SGTIN encodings. */
  lemma Sgtin96Name()
    ensures Sgtin96.Name() == "SGTIN_96"
  {
  }

  lemma Sgtin198Name()
    ensures Sgtin198.Name() == "SGTIN_198"
  {
  }

  /** The map of an SGTIN's fields, entry by entry. */
  lemma {:induction false} SgtinMap(enc: Encoding, f: string, pt: string, cp: string, ir: string, sn: string)
    ensures AsMap(Fields(enc, f, pt, cp, SgtinReferences(ir, Some(sn)))) ==
      map[Header := enc.Name(), Filter := f, Partition := pt, CompanyPrefix := cp, ItemReference := ir, SerialNumber := sn]
  {
  }

  // ---------------------------------------------------------------------
  // SGTIN-198

  /**
   * createSGTIN_198HexEPC's rejections in source order: a serial longer than
   * twenty characters, a filter above 7, then the reference checks; past
   * them every input is encoded.
   */
  lemma {:induction false} Sgtin198Outcome(filter: nat, p: int, cp: string, ir: string, serial: string)
    requires NumericText(cp) && NumericText(ir) && IsAscii(serial)
    ensures |serial| > 20 ==> Sgtin198Encoding(filter, p, cp, ir, serial) == Failure(SerialTooLong)
    ensures |serial| <= 20 && filter > 7 ==> Sgtin198Encoding(filter, p, cp, ir, serial) == Failure(FilterOutOfRange)
    ensures (|serial| <= 20 && filter <= 7 && CheckedReferences(p, cp, ir).Failure?) ==>
      Sgtin198Encoding(filter, p, cp, ir, serial) == Failure(CheckedReferences(p, cp, ir).error)
    ensures Sgtin198Encoding(filter, p, cp, ir, serial).Success? <==>
      |serial| <= 20 && filter <= 7 && CheckedReferences(p, cp, ir).Success?
  {
  }

  /** The twenty characters the 140-bit serial field holds: the serial, then NULs. */
  function Filled(s: string): (r: string)
    requires |s| <= 20
    ensures |r| == 20 && r[..|s|] == s
  {
    s + Nuls(20 - |s|)
  }

  /** fillRightWithZeros(toBinaryString(serial), 140) packs the filled serial. */
  lemma {:induction false} FilledField(s: string)
    requires IsAscii(s) && |s| <= 20
    ensures IsAscii(Filled(s)) && PadRight(Pack7(s), 140) == Pack7(Filled(s))
  {
    var k := 20 - |s|;
    Pack7Nuls(k);
    Pack7Concat(s, Nuls(k));
    assert |Pack7(s)| == 140 - 7 * k;
    assert PadRight(Pack7(s), 140) == Pack7(s) + Zeros(7 * k);
  }

  /**
   * The serial parseHexString reads back from an SGTIN-198 image: the
   * characters above 9, zero-filled on the left to twenty. The image's
   * last hex digit carries only two bits, which the decoder widens on the
   * left; a twentieth character therefore comes back with its two low bits
   * cleared.
   */
  function Sgtin198Serial(s: string): (r: string)
    requires IsAscii(s) && |s| <= 20
    ensures |r| == 20
  {
    PadLeft(DropControl(if |s| == 20 then s[..19] + [ClearLow2(s[19])] else s), 20)
  }

  /**
   * The 7-bit reading of the widened serial field: nineteen whole septets,
   * the twentieth septet with its two low bits moved out, and a final
   * two-bit group, which is dropped.
   */
  lemma {:induction false} WidenedSerial(s: string)
    requires IsAscii(s) && |s| <= 20
    ensures IsAscii(Filled(s)) && |Pack7(Filled(s))| == 140
    ensures var t := Pack7(Filled(s));
      PadLeft(Unpack7(t[..138] + PadLeft(t[138..], 4)), 20) == Sgtin198Serial(s)
  {
    FilledField(s);
    var u := Filled(s);
    WidenedSeptets(u);
    LastSeptetRead(u[..19], u[19]);
    if |s| == 20 {
      assert u == s;
    } else {
      ShortSerialKept(s);
    }
  }

  /** The widened field: nineteen septets, the last septet with its low bits cleared, and those two bits. */
  lemma {:induction false} WidenedSeptets(u: string)
    requires IsAscii(u) && |u| == 20
    ensures var t := Pack7(u);
      t[..138] + PadLeft(t[138..], 4) == Pack7(u[..19]) + (Septet(ClearLow2(u[19])) + Septet(u[19])[5..])
  {
    var c := u[19];
    LastSeptet(u);
    SeptetWidened(c);
    var x := Septet(c);
    assert x == x[..5] + x[5..];
    WidenedPair(Pack7(u[..19]), x[..5], x[5..]);
  }

  lemma {:induction false} LastSeptet(u: string)
    requires IsAscii(u) && |u| == 20
    ensures Pack7(u) == Pack7(u[..19]) + Septet(u[19])
  {
    var v, c := u[..19], u[19];
    assert u == v + [c];
    Pack7Concat(v, [c]);
    assert Pack7([c]) == Septet(c) + Pack7([]);
  }

  /** Widening the two bits after 133 + 5 bits inserts two zeros before them. */
  lemma {:induction false} WidenedPair(a: string, hi: string, lo: string)
    requires |a| == 133 && |hi| == 5 && |lo| == 2
    ensures var t := a + (hi + lo);
      t[..138] + PadLeft(t[138..], 4) == a + ((hi + "00") + lo)
  {
    var t := a + (hi + lo);
    assert t[..138] == a + hi && t[138..] == lo;
    assert PadLeft(lo, 4) == "00" + lo;
  }

  /** Reading those bits back: the nineteen characters and the cleared last one, control values dropped. */
  lemma {:induction false} LastSeptetRead(v: string, c: char)
    requires IsAscii(v) && |v| == 19 && c as int < 128
    ensures Unpack7(Pack7(v) + (Septet(ClearLow2(c)) + Septet(c)[5..])) == DropControl(v + [ClearLow2(c)])
  {
    var w := Septet(ClearLow2(c));
    Unpack7Concat(Pack7(v), w + Septet(c)[5..]);
    GroupAndPair(w, Septet(c)[5..]);
    Unpack7Pack7(v);
    Unpack7Pack7([ClearLow2(c)]);
    assert Pack7([ClearLow2(c)]) == w + Pack7([]);
    DropControlConcat(v, [ClearLow2(c)]);
  }

  /** A septet followed by a two-bit group reads as the septet alone. */
  lemma {:induction false} GroupAndPair(w: string, lo: string)
    requires |w| == 7 && |lo| == 2
    ensures Unpack7(w + lo) == Unpack7(w) + Unpack7([]) && Unpack7(w + lo) == Unpack7(w)
  {
    assert (w + lo)[..7] == w && (w + lo)[7..] == lo;
    assert w[..7] == w && w[7..] == [];
    ShortGroupDropped(lo);
  }

  /** A serial shorter than twenty characters is followed by NULs, which the decoder drops. */
  lemma {:induction false} ShortSerialKept(s: string)
    requires IsAscii(s) && |s| < 20
    ensures Filled(s)[19] == 0 as char
    ensures DropControl(Filled(s)[..19] + [ClearLow2(Filled(s)[19])]) == DropControl(s)
  {
    FilledTail(s);
    NulsKept(s, 20 - |s|);
  }

  /** The filled serial of a short serial, its last character's low bits cleared, is the serial and its NULs. */
  lemma {:induction false} FilledTail(s: string)
    requires IsAscii(s) && |s| < 20
    ensures Filled(s)[19] == 0 as char
    ensures Filled(s)[..19] + [ClearLow2(Filled(s)[19])] == s + Nuls(20 - |s|)
  {
    var u := Filled(s);
    var k := 20 - |s|;
    NulsLast(k);
    assert u[19] == Nuls(k)[k - 1];
    NulLastKept(u);
  }

  /** Clearing the low bits of a final NUL changes nothing. */
  lemma {:induction false} NulLastKept(u: string)
    requires |u| == 20 && u[19] == 0 as char
    ensures u[..19] + [ClearLow2(u[19])] == u
  {
    assert ClearLow2(u[19]) == u[19];
  }

  lemma {:induction false} NulsKept(s: string, k: nat)
    ensures DropControl(s + Nuls(k)) == DropControl(s)
  {
    DropControlConcat(s, Nuls(k));
    NulsDropped(k);
    var d := DropControl(s);
    assert d + [] == d;
  }

  /**
   * The SGTIN-198 bit string of values in range: 198 bits under the header
   * 54, and what the decoder reads once the final two-bit chunk has been
   * widened.
   */
  lemma {:induction false} Sgtin198Decoded(filter: nat, p: nat, c: nat, i: nat, serial: string)
    requires filter < 8 && IsPartition(p) && c < Pow2(CompanyPrefixBits(p)) && i < Pow2(ItemReferenceBits(p))
    requires IsAscii(serial) && |serial| <= 20
    ensures var bin := SgtinBits(54, filter, p, c, i) + PadRight(Pack7(serial), 140);
      |bin| == 198 && IsBits(bin) && BitsToNat(bin[..8]) == 54
      && DecodeFields(Widened(bin)) == Success(SgtinFields(Sgtin198, filter, p, c, i, Sgtin198Serial(serial)))
  {
    var head := SgtinBits(54, filter, p, c, i);
    var t := PadRight(Pack7(serial), 140);
    FilledField(serial);
    Pack7Bits(Filled(serial));
    SgtinLayout(54, filter, p, c, i, t);
    BitsConcat(head, t);
    Sgtin198SerialRead(filter, p, c, i, serial);
  }

  lemma {:induction false} Sgtin198SerialRead(filter: nat, p: nat, c: nat, i: nat, serial: string)
    requires filter < 8 && IsPartition(p) && c < Pow2(CompanyPrefixBits(p)) && i < Pow2(ItemReferenceBits(p))
    requires IsAscii(serial) && |serial| <= 20
    ensures var bin := SgtinBits(54, filter, p, c, i) + PadRight(Pack7(serial), 140);
      DecodeFields(Widened(bin)) == Success(SgtinFields(Sgtin198, filter, p, c, i, Sgtin198Serial(serial)))
  {
    Sgtin198Widened(filter, p, c, i, serial);
    DecodeSgtin(Sgtin198, filter, p, c, i, WidenedField(serial));
    SerialFieldRead(serial);
  }

  /** The serial field as the decoder sees it once the image's last digit has been widened. */
  function WidenedField(serial: string): string
    requires IsAscii(serial) && |serial| <= 20
  {
    var t := PadRight(Pack7(serial), 140);
    t[..138] + PadLeft(t[138..], 4)
  }

  lemma {:induction false} Sgtin198Widened(filter: nat, p: nat, c: nat, i: nat, serial: string)
    requires filter < 8 && IsPartition(p) && c < Pow2(CompanyPrefixBits(p)) && i < Pow2(ItemReferenceBits(p))
    requires IsAscii(serial) && |serial| <= 20
    ensures Widened(SgtinBits(54, filter, p, c, i) + PadRight(Pack7(serial), 140)) ==
      SgtinBits(Sgtin198.Header(), filter, p, c, i) + WidenedField(serial)
  {
    SgtinWidth(54, filter, p, c, i);
    WidenedSerialField(SgtinBits(54, filter, p, c, i), PadRight(Pack7(serial), 140));
  }

  /** The SGTIN header, filter, partition, company prefix and item reference take 58 bits. */
  lemma {:induction false} SgtinWidth(header: nat, filter: nat, p: int, c: nat, i: nat)
    requires header < 256 && filter < 8 && IsPartition(p)
    requires c < Pow2(CompanyPrefixBits(p)) && i < Pow2(ItemReferenceBits(p))
    ensures |SgtinBits(header, filter, p, c, i)| == 58
  {
    SgtinParts(header, filter, p, c, i);
  }

  /** The decoder's reading of the widened 140-bit serial field. */
  lemma {:induction false} SerialFieldRead(serial: string)
    requires IsAscii(serial) && |serial| <= 20
    ensures SerialText(Sgtin198, WidenedField(serial)) == Sgtin198Serial(serial)
  {
    FilledField(serial);
    WidenedSerial(serial);
    var t := PadRight(Pack7(serial), 140);
    assert t == Pack7(Filled(serial));
    var w := t[..138] + PadLeft(t[138..], 4);
    SerialText198(w);
  }

  lemma {:induction false} SerialText198(w: string)
    ensures SerialText(Sgtin198, w) == PadLeft(Unpack7(w), 20)
  {
  }

  /** Widening 198 bits moves the serial field's last two bits two places right. */
  lemma {:induction false} WidenedSerialField(head: string, t: string)
    requires |head| == 58 && |t| == 140
    ensures Widened(head + t) == head + (t[..138] + PadLeft(t[138..], 4))
  {
    var x, y := head + t[..138], t[138..];
    assert head + t == x + y;
    WidenedTail(x, y);
  }

  /**
   * What createSGTIN_198HexEPC writes, parseHexString reads back: a 50-digit
   * image starting with the header 36, the parsed company prefix and item
   * reference, and the serial as Sgtin198Serial describes it.
   */
  lemma {:induction false} Sgtin198RoundTrip(filter: nat, p: int, cp: string, ir: string, serial: string, hex: string)
    requires NumericText(cp) && NumericText(ir) && IsAscii(serial)
    requires Sgtin198Encoding(filter, p, cp, ir, serial) == Success(hex)
    ensures IsPartition(p) && ParseInt(cp).Success? && ParseInt(ir).Success? && |serial| <= 20
    ensures |hex| == 50 && hex[..2] == "36"
    ensures ParseFields(hex) == Success(SgtinFields(Sgtin198, filter, p, ParseInt(cp).value, ParseInt(ir).value,
                                                    Sgtin198Serial(serial)))
  {
    Sgtin198Outcome(filter, p, cp, ir, serial);
    ReferenceChecks(p, cp, ir);
    var refs := CheckedReferences(p, cp, ir).value;
    var bin := SgtinBits(54, filter, p, refs.0, refs.1) + PadRight(Pack7(serial), 140);
    assert hex == ToUpper(HexOfBits(bin));
    Sgtin198ImageParse(filter, p, refs.0, refs.1, serial);
  }

  /** The image of an SGTIN-198 bit string of values in range: 50 digits, the header 36, and the values read back. */
  lemma {:induction false} Sgtin198ImageParse(filter: nat, p: nat, c: nat, i: nat, serial: string)
    requires filter < 8 && IsPartition(p) && c < Pow2(CompanyPrefixBits(p)) && i < Pow2(ItemReferenceBits(p))
    requires IsAscii(serial) && |serial| <= 20
    ensures var hex := ToUpper(HexOfBits(SgtinBits(54, filter, p, c, i) + PadRight(Pack7(serial), 140)));
      |hex| == 50 && hex[..2] == "36"
      && ParseFields(hex) == Success(SgtinFields(Sgtin198, filter, p, c, i, Sgtin198Serial(serial)))
  {
    Sgtin198Decoded(filter, p, c, i, serial);
    Sgtin198BitsImage(SgtinBits(54, filter, p, c, i) + PadRight(Pack7(serial), 140));
  }

  /** A 198-bit string with the header 54 has a 50-digit image starting with 36. */
  lemma {:induction false} Sgtin198BitsImage(b: string)
    requires IsBits(b) && |b| == 198 && BitsToNat(b[..8]) == 54
    ensures var hex := ToUpper(HexOfBits(b));
      |hex| == 50 && hex[..2] == "36" && ParseFields(hex) == DecodeFields(Widened(b))
  {
    ImageParse(b, 54, '3', '6');
  }

  /**
   * A serial of twenty characters above the control values comes back
   * unchanged except for its last character, which loses its two low bits;
   * so it comes back whole exactly when that character's code is a
   * multiple of 4.
   */
  lemma {:induction false} Sgtin198FullSerial(s: string)
    requires IsAscii(s) && |s| == 20
    requires forall k :: 0 <= k < 20 ==> s[k] as int > 9
    requires ClearLow2(s[19]) as int > 9
    ensures Sgtin198Serial(s) == s[..19] + [ClearLow2(s[19])]
    ensures Sgtin198Serial(s) == s <==> s[19] as int % 4 == 0
  {
    var kept := s[..19] + [ClearLow2(s[19])];
    assert forall k :: 0 <= k < 20 ==> kept[k] as int > 9;
    DropControlKeeps(kept);
    if s[19] as int % 4 == 0 {
      assert kept == s;
    } else {
      assert kept[19] != s[19];
    }
  }

  /** A shorter serial above the control values comes back zero-filled on the left to twenty characters. */
  lemma {:induction false} Sgtin198ShortSerial(s: string)
    requires IsAscii(s) && |s| < 20
    requires forall k :: 0 <= k < |s| ==> s[k] as int > 9
    ensures Sgtin198Serial(s) == Zeros(20 - |s|) + s
  {
    DropControlKeeps(s);
  }

  /**
   * Digit strings of the decoder's widths pass the reference checks, as
   * long as Integer.parseInt accepts the company prefix (at most 2^31 - 1,
   * which a prefix of ten or more digits may exceed).
   */
  lemma {:induction false} DigitReferences(p: int, cp: string, ir: string)
    requires NumericText(cp) && NumericText(ir) && IsPartition(p)
    requires AllDigits(cp) && |cp| == 12 - p && DecimalValue(cp) <= IntMax
    requires AllDigits(ir) && |ir| == p + 1
    ensures CheckedReferences(p, cp, ir) == Success((DecimalValue(cp), DecimalValue(ir)))
  {
    DigitCapacity(p);
    PartitionLayout(p);
    Pow2Monotone(ItemReferenceBits(p), 24);
    ItemReferenceLimit();
    assert ParseInt(cp) == Success(DecimalValue(cp));
    assert ParseInt(ir) == Success(DecimalValue(ir));
    ReferenceChecks(p, cp, ir);
  }

  /** The widest item reference field, 24 bits, holds only values Integer.parseInt accepts. */
  lemma ItemReferenceLimit()
    ensures Pow2(24) <= IntMax
  {
    Powers();
    Pow2Add(20, 4);
  }

  /**
   * createSGTIN_198HexEPC then parseHexString returns every input as it was
   * given: company prefix and item reference of the decoder's widths, and a
   * twenty-character serial of characters above the control values whose
   * last character's code is a multiple of 4.
   */
  lemma {:induction false} Sgtin198TextRoundTrip(filter: nat, p: int, cp: string, ir: string, serial: string)
    requires NumericText(cp) && NumericText(ir) && IsAscii(serial)
    requires filter <= 7 && IsPartition(p)
    requires AllDigits(cp) && |cp| == 12 - p && DecimalValue(cp) <= IntMax
    requires AllDigits(ir) && |ir| == p + 1
    requires |serial| == 20 && serial[19] as int % 4 == 0
    requires forall k :: 0 <= k < 20 ==> serial[k] as int > 9
    ensures Sgtin198Encoding(filter, p, cp, ir, serial).Success?
    ensures Parse(Sgtin198Encoding(filter, p, cp, ir, serial).value) ==
      Success(map[Header := "SGTIN_198", Filter := NatToDecimal(filter), Partition := NatToDecimal(p),
                  CompanyPrefix := cp, ItemReference := ir, SerialNumber := serial])
  {
    Sgtin198TextFields(filter, p, cp, ir, serial);
    Sgtin198Name();
    SgtinMap(Sgtin198, NatToDecimal(filter), NatToDecimal(p), cp, ir, serial);
  }

  lemma {:induction false} Sgtin198TextFields(filter: nat, p: int, cp: string, ir: string, serial: string)
    requires NumericText(cp) && NumericText(ir) && IsAscii(serial)
    requires filter <= 7 && IsPartition(p)
    requires AllDigits(cp) && |cp| == 12 - p && DecimalValue(cp) <= IntMax
    requires AllDigits(ir) && |ir| == p + 1
    requires |serial| == 20 && serial[19] as int % 4 == 0
    requires forall k :: 0 <= k < 20 ==> serial[k] as int > 9
    ensures Sgtin198Encoding(filter, p, cp, ir, serial).Success?
    ensures ParseFields(Sgtin198Encoding(filter, p, cp, ir, serial).value) ==
      Success(Fields(Sgtin198, NatToDecimal(filter), NatToDecimal(p), cp, SgtinReferences(ir, Some(serial))))
  {
    DigitReferences(p, cp, ir);
    Sgtin198Outcome(filter, p, cp, ir, serial);
    var hex := Sgtin198Encoding(filter, p, cp, ir, serial).value;
    Sgtin198RoundTrip(filter, p, cp, ir, serial, hex);
    CanonicalFields(Sgtin198, filter, p, cp, ir, DecimalValue(cp), DecimalValue(ir), Sgtin198Serial(serial));
    assert ClearLow2(serial[19]) == serial[19];
    Sgtin198FullSerial(serial);
  }

  /**
   * The alphanumeric serial of the source's own examples, with company
   * prefix 030430, item reference 0058045, filter 1 and partition 6, comes
   * back whole.
   */
  lemma Sgtin198Example()
    ensures Sgtin198Encoding(1, 6, "030430", "0058045", "12345abcABC012345678").Success?
    ensures Parse(Sgtin198Encoding(1, 6, "030430", "0058045", "12345abcABC012345678").value) ==
      Success(map[Header := "SGTIN_198", Filter := "1", Partition := "6", CompanyPrefix := "030430",
                  ItemReference := "0058045", SerialNumber := "12345abcABC012345678"])
  {
    ExampleInputs();
    Sgtin198TextRoundTrip(1, 6, "030430", "0058045", "12345abcABC012345678");
  }

  lemma ExampleInputs()
    ensures NumericText("030430") && NumericText("0058045") && IsAscii("12345abcABC012345678")
    ensures AllDigits("030430") && DecimalValue("030430") <= IntMax && AllDigits("0058045")
    ensures "12345abcABC012345678"[19] as int % 4 == 0
    ensures forall k :: 0 <= k < 20 ==> "12345abcABC012345678"[k] as int > 9
    ensures NatToDecimal(1) == "1" && NatToDecimal(6) == "6"
  {
    ExampleText();
    ExampleDigits();
    ExampleSerial();
    ExampleSmallNumbers();
  }

  lemma ExampleText()
    ensures NumericText("030430") && NumericText("0058045") && IsAscii("12345abcABC012345678")
  {
  }

  lemma ExampleDigits()
    ensures AllDigits("030430") && DecimalValue("030430") <= IntMax && AllDigits("0058045")
  {
    assert DecimalValue("030430") < Pow10(6);
    Powers();
  }

  lemma ExampleSerial()
    ensures "12345abcABC012345678"[19] as int % 4 == 0
    ensures forall k :: 0 <= k < 20 ==> "12345abcABC012345678"[k] as int > 9
  {
  }

  lemma ExampleSmallNumbers()
    ensures NatToDecimal(1) == "1" && NatToDecimal(6) == "6"
  {
  }

  // ---------------------------------------------------------------------
  // SSCC-96

  /**
   * The SSCC bit string: 14 leading bits, company prefix and serial
   * reference fields at least as wide as the partition tables say (wider
   * when a value does not fit, since createSSCCHexEPC checks neither
   * width), and 24 unallocated bits; exactly 96 bits when both values fit.
   */
  lemma {:induction false} SsccWidth(filter: nat, p: int, c: nat, s: nat)
    requires filter < 8 && IsPartition(p)
    ensures |SsccFieldBits(filter, p, c, s)| >= 96
    ensures |SsccFieldBits(filter, p, c, s)| == 96 <==>
      c < Pow2(CompanyPrefixBits(p)) && s < Pow2(SerialReferenceBits(p))
  {
    SsccHeadWidth(filter, p);
    PartitionLayout(p);
    var wc, ws := CompanyPrefixBits(p), SerialReferenceBits(p);
    NatToBitsLength(c, wc);
    NatToBitsLength(s, ws);
    FieldsWidth(|NatToBits(c)|, |NatToBits(s)|, wc, ws);
  }

  lemma {:induction false} SsccHeadWidth(filter: nat, p: int)
    requires filter < 8 && IsPartition(p)
    ensures |HeadBits(Sscc.Header(), filter, p)| == 14 && |PadLeft("0", SsccUnallocatedBits)| == 24
  {
    SmallPowers();
    FieldWidth(Sscc.Header(), 8);
    FieldWidth(filter, 3);
    FieldWidth(p, 3);
  }

  /** Two zero-filled fields whose widths add up to 58 take 58 bits exactly when neither overflows. */
  lemma {:induction false} FieldsWidth(nc: nat, ns: nat, wc: nat, ws: nat)
    requires wc + ws == 58
    ensures var lc, ls := (if nc < wc then wc else nc), (if ns < ws then ws else ns);
      lc + ls >= 58 && (lc + ls == 58 <==> nc <= wc && ns <= ws)
  {
  }

  /**
   * createSSCCHexEPC's rejections in source order: a filter above 7, a
   * partition outside the tables, then a company prefix Integer.parseInt
   * rejects, then extension digit and serial reference Long.parseLong
   * rejects; past them every input is encoded.
   */
  lemma {:induction false} SsccOutcome(filter: nat, p: int, cp: string, ext: string, sr: string)
    requires NumericText(cp) && NumericText(ext) && NumericText(sr)
    ensures filter > 7 ==> SsccEncoding(filter, p, cp, ext, sr) == Failure(FilterOutOfRange)
    ensures filter <= 7 && !IsPartition(p) ==> SsccEncoding(filter, p, cp, ext, sr) == Failure(InvalidPartition)
    ensures filter <= 7 && IsPartition(p) && ParseInt(cp).Failure? ==>
      SsccEncoding(filter, p, cp, ext, sr) == Failure(MalformedNumber)
    ensures (filter <= 7 && IsPartition(p) && ParseInt(cp).Success? && ParseLong(ext + PadLeft(sr, p + 4)).Failure?) ==>
      SsccEncoding(filter, p, cp, ext, sr) == Failure(MalformedNumber)
    ensures SsccEncoding(filter, p, cp, ext, sr).Success? <==>
      filter <= 7 && IsPartition(p) && ParseInt(cp).Success? && ParseLong(ext + PadLeft(sr, p + 4)).Success?
  {
    if filter <= 7 && IsPartition(p) && ParseInt(cp).Success? && ParseLong(ext + PadLeft(sr, p + 4)).Success? {
      SsccWidth(filter, p, ParseInt(cp).value, ParseLong(ext + PadLeft(sr, p + 4)).value);
    }
  }

  /** The fields parseHexString reads from an SSCC image holding these values. */
  function SsccFields(filter: nat, p: nat, c: nat, s: nat): Fields {
    Fields(Sscc, NatToDecimal(filter), NatToDecimal(p), PadLeft(NatToDecimal(c), 12 - p),
           SsccReferences(PadLeft(NatToDecimal(s), p + 5), "0"))
  }

  /** Where the fields of an SSCC image sit in the bit string. */
  lemma {:induction false} SsccSlices(h: string, f: string, q: string, cb: string, sb: string, z: string)
    requires |h| == 8 && |f| == 3 && |q| == 3 && |cb| + |sb| == 58
    ensures var b := h + f + q + cb + sb + z;
      var cpEnd := 14 + |cb|;
      |b| == 72 + |z| && b[..8] == h && b[8..11] == f && b[11..14] == q
      && b[14..cpEnd] == cb && b[cpEnd..72] == sb && b[72..] == z
  {
    var b := h + f + q + cb + sb + z;
    assert b[..8] == h;
    assert b[8..11] == f;
    assert b[11..14] == q;
    assert b[14..14 + |cb|] == cb;
    assert b[14 + |cb|..72] == sb;
    assert b[72..] == z;
  }

  /**
   * The six parts of the SSCC bit string of values that fit: header,
   * filter, partition, company prefix, serial reference and unallocated
   * bits, each a bit string of its width holding its value.
   */
  lemma {:induction false} SsccParts(filter: nat, p: int, c: nat, s: nat)
    requires filter < 8 && IsPartition(p)
    requires c < Pow2(CompanyPrefixBits(p)) && s < Pow2(SerialReferenceBits(p))
    ensures var h, f, q := ValueBits(Sscc.Header(), 8), ValueBits(filter, 3), ValueBits(p, 3);
      var cb, sb, z := ValueBits(c, CompanyPrefixBits(p)), ValueBits(s, SerialReferenceBits(p)), PadLeft("0", SsccUnallocatedBits);
      SsccFieldBits(filter, p, c, s) == h + f + q + cb + sb + z
      && |h| == 8 && |f| == 3 && |q| == 3 && |cb| == CompanyPrefixBits(p) && |cb| + |sb| == 58 && |z| == 24
      && IsBits(z) && BitsToNat(z) == 0
  {
    SmallPowers();
    PartitionLayout(p);
    FieldWidth(Sscc.Header(), 8);
    FieldWidth(filter, 3);
    FieldWidth(p, 3);
    FieldWidth(c, CompanyPrefixBits(p));
    FieldWidth(s, SerialReferenceBits(p));
    UnallocatedBits();
  }

  /** The 24 unallocated bits are zeros. */
  lemma UnallocatedBits()
    ensures var z := PadLeft("0", SsccUnallocatedBits); |z| == 24 && IsBits(z) && BitsToNat(z) == 0
  {
    var w := SsccUnallocatedBits;
    assert PadLeft("0", w) == Zeros(w - 1) + "0";
    assert Zeros(w - 1) + "0" == Zeros(w);
    ZeroBitsValue(w);
  }

  lemma {:induction false} SsccIsBits(h: string, f: string, q: string, cb: string, sb: string, z: string)
    requires IsBits(h) && IsBits(f) && IsBits(q) && IsBits(cb) && IsBits(sb) && IsBits(z)
    ensures IsBits(h + f + q + cb + sb + z)
  {
    BitsConcat(h, f);
    BitsConcat(h + f, q);
    BitsConcat(h + f + q, cb);
    BitsConcat(h + f + q + cb, sb);
    BitsConcat(h + f + q + cb + sb, z);
  }

  /** The decoder on six SSCC parts that hold the given values. */
  lemma {:induction false} DecodeSsccParts(h: string, f: string, q: string, cb: string, sb: string, z: string,
                        filter: nat, p: nat, c: nat, s: nat)
    requires IsPartition(p) && |h| == 8 && |f| == 3 && |q| == 3 && |cb| == CompanyPrefixBits(p) && |cb| + |sb| == 58
    requires BitsToNat(h) == Sscc.Header() && BitsToNat(f) == filter && BitsToNat(q) == p
    requires BitsToNat(cb) == c && BitsToNat(sb) == s && BitsToNat(z) == 0
    ensures var b := h + f + q + cb + sb + z;
      |b| == 72 + |z| && BitsToNat(b[..8]) == Sscc.Header() && DecodeFields(b) == Success(SsccFields(filter, p, c, s))
  {
    SsccSlices(h, f, q, cb, sb, z);
    DecodeSsccSlices(h + f + q + cb + sb + z, filter, p, c, s);
  }

  /** The decoder on a bit string whose SSCC fields hold the given values. */
  lemma {:induction false} DecodeSsccSlices(b: string, filter: nat, p: nat, c: nat, s: nat)
    requires IsPartition(p) && |b| >= 72
    requires BitsToNat(b[..8]) == Sscc.Header() && BitsToNat(b[8..11]) == filter && BitsToNat(b[11..14]) == p
    requires BitsToNat(b[14..14 + CompanyPrefixBits(p)]) == c && BitsToNat(b[14 + CompanyPrefixBits(p)..72]) == s
    requires BitsToNat(b[72..]) == 0
    ensures DecodeFields(b) == Success(SsccFields(filter, p, c, s))
  {
    var cpEnd := 14 + CompanyPrefixBits(p);
    PartitionLayout(p);
    HeaderStep(b, Sscc);
    FieldText(b[14..cpEnd], c, 12 - p);
    FieldText(b[cpEnd..72], s, p + 5);
    assert NatToDecimal(0) == "0";
    ReadSsccReferences(p, b);
  }

  /** Past the header byte of a known encoding, the decoder goes on to the partition. */
  lemma {:induction false} HeaderStep(b: string, enc: Encoding)
    requires |b| >= 14 && BitsToNat(b[..8]) == enc.Header()
    ensures DecodeFields(b) == DecodeAfterPartition(enc, BitsToNat(b[11..14]), b)
  {
    HeaderTable(enc.Header(), enc);
  }

  /** Serial reference and unallocated bits as the decoder reads them after the company prefix. */
  lemma {:induction false} ReadSsccReferences(p: nat, b: string)
    requires IsPartition(p) && |b| >= 72
    ensures DecodeReferences(Sscc, p, b) ==
      Success(SsccReferences(DecimalField(b[14 + CompanyPrefixBits(p)..72], p + 5), NatToDecimal(BitsToNat(b[72..]))))
  {
    PartitionLayout(p);
  }

  /**
   * What createSSCCHexEPC writes, parseHexString reads back: a 24-digit
   * image starting with the header 31; when the company prefix and the
   * serial reference (extension digit first) fit their fields, they come
   * back zero-filled to 12 - p and p + 5 digits, with unallocated bits 0.
   */
  lemma {:induction false} SsccRoundTrip(filter: nat, p: int, cp: string, ext: string, sr: string, hex: string)
    requires NumericText(cp) && NumericText(ext) && NumericText(sr)
    requires SsccEncoding(filter, p, cp, ext, sr) == Success(hex)
    ensures IsPartition(p) && ParseInt(cp).Success? && ParseLong(ext + PadLeft(sr, p + 4)).Success?
    ensures |hex| == 24 && hex[..2] == "31"
    ensures var c, s := ParseInt(cp).value, ParseLong(ext + PadLeft(sr, p + 4)).value;
      c < Pow2(CompanyPrefixBits(p)) && s < Pow2(SerialReferenceBits(p)) ==>
      ParseFields(hex) == Success(SsccFields(filter, p, c, s))
  {
    SsccOutcome(filter, p, cp, ext, sr);
    var c, s := ParseInt(cp).value, ParseLong(ext + PadLeft(sr, p + 4)).value;
    SsccEncoded(filter, p, cp, ext, sr);
    SsccImageShape(filter, p, c, s);
    if c < Pow2(CompanyPrefixBits(p)) && s < Pow2(SerialReferenceBits(p)) {
      SsccImageParse(filter, p, c, s);
      WholeImage(SsccFieldBits(filter, p, c, s));
    }
  }

  /** Past its checks, createSSCCHexEPC writes the image of the first 96 bits. */
  lemma {:induction false} SsccEncoded(filter: nat, p: int, cp: string, ext: string, sr: string)
    requires NumericText(cp) && NumericText(ext) && NumericText(sr)
    requires filter <= 7 && IsPartition(p) && ParseInt(cp).Success? && ParseLong(ext + PadLeft(sr, p + 4)).Success?
    ensures var bin := SsccFieldBits(filter, p, ParseInt(cp).value, ParseLong(ext + PadLeft(sr, p + 4)).value);
      |bin| >= 96 && SsccEncoding(filter, p, cp, ext, sr) == Success(ToUpper(HexOfBits(bin[..96])))
  {
    SsccWidth(filter, p, ParseInt(cp).value, ParseLong(ext + PadLeft(sr, p + 4)).value);
  }

  /** The first 96 bits of a 96-bit string are all of it. */
  lemma {:induction false} WholeImage(b: string)
    requires |b| == 96
    ensures b[..96] == b
  {
  }

  /** The image of an SSCC bit string whose values fit parses back to those values. */
  lemma {:induction false} SsccImageParse(filter: nat, p: int, c: nat, s: nat)
    requires filter < 8 && IsPartition(p)
    requires c < Pow2(CompanyPrefixBits(p)) && s < Pow2(SerialReferenceBits(p))
    ensures |SsccFieldBits(filter, p, c, s)| == 96
    ensures ParseFields(ToUpper(HexOfBits(SsccFieldBits(filter, p, c, s)))) == Success(SsccFields(filter, p, c, s))
  {
    var h, f, q := ValueBits(Sscc.Header(), 8), ValueBits(filter, 3), ValueBits(p, 3);
    var cb, sb, z := ValueBits(c, CompanyPrefixBits(p)), ValueBits(s, SerialReferenceBits(p)), PadLeft("0", SsccUnallocatedBits);
    SsccParts(filter, p, c, s);
    SsccPartsImage(h, f, q, cb, sb, z, filter, p, c, s);
  }

  /** The image of six SSCC parts that hold the given values parses back to those values. */
  lemma {:induction false} SsccPartsImage(h: string, f: string, q: string, cb: string, sb: string, z: string,
                       filter: nat, p: nat, c: nat, s: nat)
    requires IsPartition(p) && |h| == 8 && |f| == 3 && |q| == 3 && |cb| == CompanyPrefixBits(p) && |cb| + |sb| == 58
    requires |z| == 24 && IsBits(h) && IsBits(f) && IsBits(q) && IsBits(cb) && IsBits(sb) && IsBits(z)
    requires BitsToNat(h) == Sscc.Header() && BitsToNat(f) == filter && BitsToNat(q) == p
    requires BitsToNat(cb) == c && BitsToNat(sb) == s && BitsToNat(z) == 0
    ensures |h + f + q + cb + sb + z| == 96
    ensures ParseFields(ToUpper(HexOfBits(h + f + q + cb + sb + z))) == Success(SsccFields(filter, p, c, s))
  {
    var b := h + f + q + cb + sb + z;
    SsccIsBits(h, f, q, cb, sb, z);
    DecodeSsccParts(h, f, q, cb, sb, z, filter, p, c, s);
    SsccHeaderDigits();
    AlignedImageParse(b, Sscc.Header(), '3', '1');
  }

  /** The SSCC header byte 49 is written as the hex digits 31. */
  lemma SsccHeaderDigits()
    ensures Sscc.Header() / 16 < 10 && Sscc.Header() % 16 < 10
    ensures DigitChar(Sscc.Header() / 16) == '3' && DigitChar(Sscc.Header() % 16) == '1'
  {
  }

  /** The decoder reads back the values of an SSCC bit string whose values fit. */
  lemma {:induction false} SsccDecoded(filter: nat, p: int, c: nat, s: nat)
    requires filter < 8 && IsPartition(p)
    requires c < Pow2(CompanyPrefixBits(p)) && s < Pow2(SerialReferenceBits(p))
    ensures DecodeFields(SsccFieldBits(filter, p, c, s)) == Success(SsccFields(filter, p, c, s))
  {
    var h, f, q := ValueBits(Sscc.Header(), 8), ValueBits(filter, 3), ValueBits(p, 3);
    var cb, sb, z := ValueBits(c, CompanyPrefixBits(p)), ValueBits(s, SerialReferenceBits(p)), PadLeft("0", SsccUnallocatedBits);
    SsccParts(filter, p, c, s);
    DecodeSsccParts(h, f, q, cb, sb, z, filter, p, c, s);
  }

  /**
   * The first 96 bits of any SSCC bit string, whether or not its values
   * fit their fields, give a 24-digit image led by the header 31.
   */
  lemma {:induction false} SsccImageShape(filter: nat, p: int, c: nat, s: nat)
    requires filter < 8 && IsPartition(p)
    ensures |SsccFieldBits(filter, p, c, s)| >= 96
    ensures var hex := ToUpper(HexOfBits(SsccFieldBits(filter, p, c, s)[..96]));
      |hex| == 24 && hex[..2] == "31"
  {
    var h := ValueBits(Sscc.Header(), 8);
    var f, q := ValueBits(filter, 3), ValueBits(p, 3);
    var cb, sb, z := ValueBits(c, CompanyPrefixBits(p)), ValueBits(s, SerialReferenceBits(p)), PadLeft("0", SsccUnallocatedBits);
    SsccWidth(filter, p, c, s);
    SmallPowers();
    FieldWidth(Sscc.Header(), 8);
    SsccLeadingImage(h, f, q, cb, sb, z);
  }

  /** The first 96 bits of six parts led by the SSCC header byte. */
  lemma {:induction false} SsccLeadingImage(h: string, f: string, q: string, cb: string, sb: string, z: string)
    requires |h| == 8 && BitsToNat(h) == Sscc.Header() && |h + f + q + cb + sb + z| >= 96
    ensures var hex := ToUpper(HexOfBits((h + f + q + cb + sb + z)[..96]));
      |hex| == 24 && hex[..2] == "31"
  {
    var b := h + f + q + cb + sb + z;
    assert b[..8] == h;
    LeadingNinetySix(b, Sscc.Header(), '3', '1');
  }

  /** The image of the first 96 bits of a bit string: 24 digits led by its header byte. */
  lemma {:induction false} LeadingNinetySix(b: string, h: nat, hi: char, lo: char)
    requires |b| >= 96 && BitsToNat(b[..8]) == h
    requires h / 16 < 10 && h % 16 < 10 && hi == DigitChar(h / 16) && lo == DigitChar(h % 16)
    ensures var hex := ToUpper(HexOfBits(b[..96]));
      |hex| == 24 && hex[..2] == [hi, lo]
  {
    assert b[..96][..8] == b[..8];
    ImageHeader(b[..96], h, hi, lo);
  }
}
