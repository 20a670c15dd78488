/**
 * The accessors applied to encoded images: getGTIN of an image that the
 * GTIN overloads wrote, getSSCC of an image that the company-prefix
 * overload wrote, the company prefix, item reference, serial and URIs of
 * every image an encoder wrote, and the reserialising encoder.
 */
module Accessors {
  import opened Results
  import opened Text
  import opened BitStrings
  import opened Tables
  import opened Checksum
  import opened Encoder
  import opened Decoder
  import opened Facade
  import opened RoundTrip

  // ---------------------------------------------------------------------
  // GTIN

  /** The GTIN overloads' split: company prefix gtin[1..7], item reference gtin[0] + gtin[7..13]. */
  lemma {:induction false} GtinSplit(gtin: string)
    requires |gtin| >= 13 && AllDigits(gtin[..13])
    ensures var cp, ir := gtin[1..7], gtin[0..1] + gtin[7..13];
      |cp| == 6 && |ir| == 7 && AllDigits(cp) && AllDigits(ir) && NumericText(cp) && NumericText(ir)
      && ir[..1] + cp + ir[1..] == gtin[..13]
  {
    var cp, ir := gtin[1..7], gtin[0..1] + gtin[7..13];
    assert forall k :: 0 <= k < 6 ==> cp[k] == gtin[..13][k + 1];
    assert forall k :: 0 <= k < 7 ==> ir[k] == gtin[..13][if k == 0 then 0 else k + 6];
    assert ir[..1] == gtin[0..1] && ir[1..] == gtin[7..13];
  }

  /**
   * getGTIN of an image the decoder reads as an SGTIN with prefix cp and
   * item reference ir: the reference's first digit, the prefix, the
   * reference's other digits, then their check digit.
   */
  lemma {:induction false} GtinOfImage(hex: string, d: Fields, g: string)
    requires ParseFields(hex) == Success(d) && d.encoding in {Sgtin96, Sgtin198}
    requires d.references.SgtinReferences? && d.references.serial.Some?
    requires var cp, ir := d.companyPrefix, d.references.itemReference;
      |ir| >= 1 && AllDigits(cp) && AllDigits(ir) && ir[..1] + cp + ir[1..] == g
    ensures AllDigits(g) && CheckDigit(g).Success?
    ensures GetGtin(hex) == Success(Some(g + IntToString(CheckDigit(g).value)))
  {
    AsMapShape(d);
    JoinedDigits(d.references.itemReference, d.companyPrefix);
  }

  /**
   * A company prefix and item reference written at the decoder's widths
   * come back from an SGTIN-96 image verbatim, next to the zero-filled
   * serial.
   */
  lemma {:induction false} Sgtin96CanonicalImage(rank: nat, p: int, cp: string, ir: string, sn: string, hex: string)
    requires NumericText(cp) && NumericText(ir) && NumericText(sn)
    requires Sgtin96Encoding(rank, p, cp, ir, sn) == Success(hex)
    requires |cp| == 12 - p && |ir| == p + 1
    ensures p >= 0 && ParseLong(sn).Success?
    ensures ParseFields(hex) == Success(Fields(Sgtin96, NatToDecimal(rank), NatToDecimal(p), cp,
                                               SgtinReferences(ir, Some(PadLeft(NatToDecimal(ParseLong(sn).value), 12)))))
  {
    Sgtin96RoundTrip(rank, p, cp, ir, sn, hex);
    var serial := PadLeft(NatToDecimal(ParseLong(sn).value), 12);
    CanonicalFields(Sgtin96, rank, p, cp, ir, ParseInt(cp).value, ParseInt(ir).value, serial);
  }

  /** The same for an SGTIN-198 image, next to the serial Sgtin198Serial describes. */
  lemma {:induction false} Sgtin198CanonicalImage(rank: nat, p: int, cp: string, ir: string, sn: string, hex: string)
    requires NumericText(cp) && NumericText(ir) && IsAscii(sn)
    requires Sgtin198Encoding(rank, p, cp, ir, sn) == Success(hex)
    requires |cp| == 12 - p && |ir| == p + 1
    ensures p >= 0 && |sn| <= 20
    ensures ParseFields(hex) == Success(Fields(Sgtin198, NatToDecimal(rank), NatToDecimal(p), cp,
                                               SgtinReferences(ir, Some(Sgtin198Serial(sn)))))
  {
    Sgtin198RoundTrip(rank, p, cp, ir, sn, hex);
    CanonicalFields(Sgtin198, rank, p, cp, ir, ParseInt(cp).value, ParseInt(ir).value, Sgtin198Serial(sn));
  }

  /**
   * getGTIN of an image createSGTIN_96HexEPC(rank, gtin, sn) wrote: the
   * first thirteen digits of the GTIN, followed by their check digit.
   */
  lemma {:induction false} Sgtin96GtinRoundTrip(rank: nat, gtin: string, sn: string, hex: string)
    requires NumericText(gtin) && NumericText(sn) && |gtin| >= 13 && AllDigits(gtin[..13])
    requires Sgtin96FromGtin(rank, gtin, sn) == Success(hex)
    ensures CheckDigit(gtin[..13]).Success?
    ensures GetGtin(hex) == Success(Some(gtin[..13] + IntToString(CheckDigit(gtin[..13]).value)))
  {
    var cp, ir := gtin[1..7], gtin[0..1] + gtin[7..13];
    GtinSplit(gtin);
    Sgtin96CanonicalImage(rank, 6, cp, ir, sn, hex);
    var serial := PadLeft(NatToDecimal(ParseLong(sn).value), 12);
    GtinOfImage(hex, Fields(Sgtin96, NatToDecimal(rank), NatToDecimal(6), cp, SgtinReferences(ir, Some(serial))), gtin[..13]);
  }

  /** The same for createSGTIN_198HexEPC(rank, gtin, sn). */
  lemma {:induction false} Sgtin198GtinRoundTrip(rank: nat, gtin: string, sn: string, hex: string)
    requires NumericText(gtin) && IsAscii(sn) && |gtin| >= 13 && AllDigits(gtin[..13])
    requires Sgtin198FromGtin(rank, gtin, sn) == Success(hex)
    ensures CheckDigit(gtin[..13]).Success?
    ensures GetGtin(hex) == Success(Some(gtin[..13] + IntToString(CheckDigit(gtin[..13]).value)))
  {
    var cp, ir := gtin[1..7], gtin[0..1] + gtin[7..13];
    GtinSplit(gtin);
    Sgtin198CanonicalImage(rank, 6, cp, ir, sn, hex);
    GtinOfImage(hex, Fields(Sgtin198, NatToDecimal(rank), NatToDecimal(6), cp, SgtinReferences(ir, Some(Sgtin198Serial(sn)))), gtin[..13]);
  }

  /** A valid fourteen-digit GTIN is its first thirteen digits followed by their check digit. */
  lemma {:induction false} ValidGtinSplit(gtin: string)
    requires |gtin| == 14 && ValidGtin(gtin)
    ensures AllDigits(gtin[..13]) && CheckDigit(gtin[..13]).Success?
    ensures gtin[..13] + IntToString(CheckDigit(gtin[..13]).value) == gtin
  {
    ValidGtinAgreesWithChecksum(gtin);
    assert gtin == gtin[..13] + [gtin[13]];
  }

  /**
   * A valid GTIN encoded by either GTIN overload comes back from getGTIN
   * unchanged, whatever the serial.
   */
  lemma {:induction false} GtinComesBack(rank: nat, gtin: string, sn: string, hex: string)
    requires NumericText(gtin) && NumericText(sn) && |gtin| == 14 && ValidGtin(gtin)
    requires Sgtin96FromGtin(rank, gtin, sn) == Success(hex) || Sgtin198FromGtin(rank, gtin, sn) == Success(hex)
    ensures GetGtin(hex) == Success(Some(gtin))
  {
    ValidGtinSplit(gtin);
    if Sgtin96FromGtin(rank, gtin, sn) == Success(hex) {
      Sgtin96GtinRoundTrip(rank, gtin, sn, hex);
    } else {
      assert IsAscii(sn);
      Sgtin198GtinRoundTrip(rank, gtin, sn, hex);
    }
  }

  // ---------------------------------------------------------------------
  // SSCC

  /** Digits followed by zero-filled digits are digits; the fill gives the width asked for. */
  lemma {:induction false} SerialReferenceText(ext: string, sr: string, w: nat)
    requires AllDigits(ext) && AllDigits(sr) && |sr| <= w
    ensures var t := ext + PadLeft(sr, w);
      |t| == |ext| + w && AllDigits(t) && t[..|ext|] == ext && t[|ext|..] == PadLeft(sr, w)
  {
    PaddedDigits(sr, w);
    var t := ext + PadLeft(sr, w);
    assert forall k :: 0 <= k < |t| ==> t[k] == if k < |ext| then ext[k] else PadLeft(sr, w)[k - |ext|];
  }

  /**
   * A company prefix of the decoder's width, one extension digit and a
   * serial reference of at most p + 4 digits come back from an SSCC image
   * verbatim: the prefix as it was, the serial reference as the extension
   * digit followed by the reference zero-filled to p + 4 digits.
   */
  lemma {:induction false} SsccCanonicalImage(rank: nat, p: int, cp: string, ext: string, sr: string, hex: string)
    requires NumericText(cp) && NumericText(ext) && NumericText(sr)
    requires SsccEncoding(rank, p, cp, ext, sr) == Success(hex)
    requires |cp| == 12 - p && AllDigits(cp)
    requires |ext| == 1 && AllDigits(ext) && AllDigits(sr) && |sr| <= p + 4
    ensures p >= 0
    ensures ParseFields(hex) == Success(Fields(Sscc, NatToDecimal(rank), NatToDecimal(p), cp,
                                               SsccReferences(ext + PadLeft(sr, p + 4), "0")))
  {
    SsccRoundTrip(rank, p, cp, ext, sr, hex);
    var t := ext + PadLeft(sr, p + 4);
    SerialReferenceText(ext, sr, p + 4);
    DigitCapacity(p);
    CanonicalDecimal(cp);
    CanonicalDecimal(t);
  }

  /**
   * getSSCC of an image the decoder reads as an SSCC with prefix cp and
   * serial reference sr: the reference's first digit, the prefix, the
   * reference's other digits, then their check digit.
   */
  lemma {:induction false} SsccOfImage(hex: string, d: Fields, g: string)
    requires ParseFields(hex) == Success(d) && d.encoding == Sscc && d.references.SsccReferences?
    requires var cp, sr := d.companyPrefix, d.references.serialReference;
      |sr| >= 1 && AllDigits(cp) && AllDigits(sr) && sr[..1] + cp + sr[1..] == g
    ensures AllDigits(g) && CheckDigit(g).Success?
    ensures GetSscc(hex) == Success(Some(g + IntToString(CheckDigit(g).value)))
  {
    AsMapShape(d);
    JoinedDigits(d.references.serialReference, d.companyPrefix);
  }

  /**
   * getSSCC of an image createSSCCHexEPC(rank, companyPrefix, extensionCode,
   * serialRef) wrote, for a prefix of 6 to 12 digits: the extension digit,
   * the prefix, the serial reference zero-filled to 16 - |prefix| digits,
   * and a check digit that makes the eighteen digits valid.
   */
  lemma {:induction false} SsccFromPrefixRoundTrip(rank: nat, cp: string, ext: string, sr: string, hex: string)
    requires NumericText(cp) && NumericText(ext) && NumericText(sr)
    requires 6 <= |cp| <= 12 && AllDigits(cp)
    requires |ext| == 1 && AllDigits(ext) && AllDigits(sr) && |sr| <= 16 - |cp|
    requires SsccFromPrefix(rank, cp, ext, sr) == Success(hex)
    ensures var g := ext + cp + PadLeft(sr, 16 - |cp|);
      |g| == 17 && AllDigits(g) && CheckDigit(g).Success?
      && GetSscc(hex) == Success(Some(g + IntToString(CheckDigit(g).value)))
      && ValidGtin(g + IntToString(CheckDigit(g).value))
  {
    var p := PrefixPartition(cp);
    SsccCanonicalImage(rank, p, cp, ext, sr, hex);
    var t := ext + PadLeft(sr, p + 4);
    SerialReferenceText(ext, sr, p + 4);
    var g := ext + cp + PadLeft(sr, 16 - |cp|);
    assert t[..1] + cp + t[1..] == g;
    SsccOfImage(hex, Fields(Sscc, NatToDecimal(rank), NatToDecimal(p), cp, SsccReferences(t, "0")), g);
    AppendCheckDigit(g);
  }

  // ---------------------------------------------------------------------
  // Company prefix, item reference, serial and URIs of encoded images

  /**
   * An image createSGTIN_96HexEPC wrote: getCompanyPrefix, getItemReference
   * and getSerialNumber return the parsed inputs zero-filled to 12 - p,
   * p + 1 and 12 digits, and the two URIs are built from those texts.
   */
  lemma {:induction false} Sgtin96Accessors(f: nat, p: int, cp: string, ir: string, sn: string, hex: string)
    requires NumericText(cp) && NumericText(ir) && NumericText(sn)
    requires Sgtin96Encoding(f, p, cp, ir, sn) == Success(hex)
    ensures p >= 0 && ParseInt(cp).Success? && ParseInt(ir).Success? && ParseLong(sn).Success?
    ensures var c, i := PadLeft(NatToDecimal(ParseInt(cp).value), 12 - p), PadLeft(NatToDecimal(ParseInt(ir).value), p + 1);
      var s := PadLeft(NatToDecimal(ParseLong(sn).value), 12);
      GetCompanyPrefix(hex) == Success(Some(c)) && GetItemReference(hex) == Success(Some(i))
      && GetSerialNumber(hex) == Success(Some(s))
      && PureIdentityUri96(hex) == Success("urn:epc:id:sgtin:" + (c + "." + i + "." + s))
      && TagUri96(hex) == Success("urn:epc:tag:sgtin-96:" + (NatToDecimal(f) + "." + c + "." + i + "." + s))
  {
    Sgtin96RoundTrip(f, p, cp, ir, sn, hex);
  }

  /**
   * An image createSGTIN_96HexEPC(rank, gtin, sn) wrote carries the pure
   * identity URI of the GTIN: digits 2 to 7 as the company prefix, the
   * indicator digit followed by digits 8 to 13 as the item reference, and
   * the serial zero-filled to twelve digits.
   */
  lemma {:induction false} Sgtin96GtinUri(rank: nat, gtin: string, sn: string, hex: string)
    requires NumericText(gtin) && NumericText(sn) && |gtin| >= 13 && AllDigits(gtin[..13])
    requires Sgtin96FromGtin(rank, gtin, sn) == Success(hex)
    ensures ParseLong(sn).Success?
    ensures PureIdentityUri96(hex) ==
      Success("urn:epc:id:sgtin:" + (gtin[1..7] + "." + (gtin[0..1] + gtin[7..13]) + "."
                                     + PadLeft(NatToDecimal(ParseLong(sn).value), 12)))
  {
    var cp, ir := gtin[1..7], gtin[0..1] + gtin[7..13];
    GtinSplit(gtin);
    Sgtin96CanonicalImage(rank, 6, cp, ir, sn, hex);
    var d := Fields(Sgtin96, NatToDecimal(rank), NatToDecimal(6), cp,
                    SgtinReferences(ir, Some(PadLeft(NatToDecimal(ParseLong(sn).value), 12))));
    assert PureIdentityUri96(hex) == RecordIdentityUri(d);
  }

  /**
   * An image createSGTIN_198HexEPC wrote: the zero-filled company prefix and
   * item reference, the serial as Sgtin198Serial describes it, and no
   * 96-bit URI.
   */
  lemma {:induction false} Sgtin198Accessors(f: nat, p: int, cp: string, ir: string, sn: string, hex: string)
    requires NumericText(cp) && NumericText(ir) && IsAscii(sn)
    requires Sgtin198Encoding(f, p, cp, ir, sn) == Success(hex)
    ensures p >= 0 && ParseInt(cp).Success? && ParseInt(ir).Success?
    ensures GetCompanyPrefix(hex) == Success(Some(PadLeft(NatToDecimal(ParseInt(cp).value), 12 - p)))
    ensures GetItemReference(hex) == Success(Some(PadLeft(NatToDecimal(ParseInt(ir).value), p + 1)))
    ensures GetSerialNumber(hex) == Success(Some(Sgtin198Serial(sn)))
    ensures PureIdentityUri96(hex) == Failure(NotSupported) && TagUri96(hex) == Failure(NotSupported)
  {
    Sgtin198RoundTrip(f, p, cp, ir, sn, hex);
    var d := SgtinFields(Sgtin198, f, p, ParseInt(cp).value, ParseInt(ir).value, Sgtin198Serial(sn));
    DecodedSgtin198(hex, d, d.companyPrefix, d.references.itemReference, Sgtin198Serial(sn));
  }

  /** The accessors on an image the decoder reads as an SGTIN-198: its fields, and no 96-bit URI. */
  lemma {:induction false} DecodedSgtin198(hex: string, d: Fields, cp: string, ir: string, sn: string)
    requires ParseFields(hex) == Success(d)
    requires d.encoding == Sgtin198 && d.companyPrefix == cp && d.references == SgtinReferences(ir, Some(sn))
    ensures GetCompanyPrefix(hex) == Success(Some(cp)) && GetItemReference(hex) == Success(Some(ir))
    ensures GetSerialNumber(hex) == Success(Some(sn))
    ensures PureIdentityUri96(hex) == Failure(NotSupported) && TagUri96(hex) == Failure(NotSupported)
  {
  }

  /**
   * An image createSSCCHexEPC wrote, when the prefix and the serial
   * reference fit their fields: getCompanyPrefix and getSerialNumber return
   * them zero-filled to 12 - p and p + 5 digits, getItemReference returns
   * null, and the two URIs are built from those texts.
   */
  lemma {:induction false} SsccAccessors(f: nat, p: int, cp: string, ext: string, sr: string, hex: string)
    requires NumericText(cp) && NumericText(ext) && NumericText(sr)
    requires SsccEncoding(f, p, cp, ext, sr) == Success(hex)
    ensures p >= 0 && ParseInt(cp).Success? && ParseLong(ext + PadLeft(sr, p + 4)).Success?
    ensures var cv, sv := ParseInt(cp).value, ParseLong(ext + PadLeft(sr, p + 4)).value;
      cv < Pow2(CompanyPrefixBits(p)) && sv < Pow2(SerialReferenceBits(p)) ==>
      var c, s := PadLeft(NatToDecimal(cv), 12 - p), PadLeft(NatToDecimal(sv), p + 5);
      GetCompanyPrefix(hex) == Success(Some(c)) && GetItemReference(hex) == Success(None)
      && GetSerialNumber(hex) == Success(Some(s))
      && PureIdentityUri96(hex) == Success("urn:epc:id:sscc:" + (c + "." + s))
      && TagUri96(hex) == Success("urn:epc:tag:sscc-96:" + (NatToDecimal(f) + "." + c + "." + s))
  {
    SsccRoundTrip(f, p, cp, ext, sr, hex);
  }

  /**
   * An image createSSCCHexEPC(rank, companyPrefix, extensionCode, serialRef)
   * wrote carries the pure identity URI of the SSCC: the prefix as given,
   * then the extension digit and the serial reference zero-filled to
   * 16 - |prefix| digits.
   */
  lemma {:induction false} SsccPrefixUri(rank: nat, cp: string, ext: string, sr: string, hex: string)
    requires NumericText(cp) && NumericText(ext) && NumericText(sr)
    requires 6 <= |cp| <= 12 && AllDigits(cp)
    requires |ext| == 1 && AllDigits(ext) && AllDigits(sr) && |sr| <= 16 - |cp|
    requires SsccFromPrefix(rank, cp, ext, sr) == Success(hex)
    ensures PureIdentityUri96(hex) == Success("urn:epc:id:sscc:" + (cp + "." + (ext + PadLeft(sr, 16 - |cp|))))
  {
    var p := PrefixPartition(cp);
    SsccCanonicalImage(rank, p, cp, ext, sr, hex);
    var d := Fields(Sscc, NatToDecimal(rank), NatToDecimal(p), cp, SsccReferences(ext + PadLeft(sr, p + 4), "0"));
    assert PureIdentityUri96(hex) == RecordIdentityUri(d);
  }

  // ---------------------------------------------------------------------
  // Reserialising

  /** createSGTIN_96HexEPC reads its company prefix and item reference only through Integer.parseInt. */
  lemma {:induction false} SameValuesSameImage(f: nat, p: int, cp: string, ir: string, cp2: string, ir2: string, sn: string)
    requires NumericText(cp) && NumericText(ir) && NumericText(cp2) && NumericText(ir2) && NumericText(sn)
    requires ParseInt(cp2) == ParseInt(cp) && ParseInt(ir2) == ParseInt(ir)
    ensures Sgtin96Encoding(f, p, cp2, ir2, sn) == Sgtin96Encoding(f, p, cp, ir, sn)
  {
    assert CheckedReferences(p, cp2, ir2) == CheckedReferences(p, cp, ir);
  }

  lemma {:induction false} DigitsAreNumeric(s: string)
    requires AllDigits(s)
    ensures NumericText(s)
  {
    forall k | 0 <= k < |s|
      ensures s[k] as int < 128 && s[k] != '+' && s[k] != '-'
    {
      assert IsDigit(s[k]);
    }
  }

  /** Integer.parseInt reads a zero-filled field back as the value written. */
  lemma {:induction false} PaddedField(n: nat, k: int)
    requires n <= IntMax
    ensures var t := PadLeft(NatToDecimal(n), k);
      NumericText(t) && ParseInt(t) == Success(n)
  {
    ParsePadded(n, k);
    PaddedDigits(NatToDecimal(n), k);
    DigitsAreNumeric(PadLeft(NatToDecimal(n), k));
  }

  /** Integer.parseInt reads Long.toString of a value back. */
  lemma {:induction false} ParseShown(n: nat)
    requires n <= IntMax
    ensures ParseInt(NatToDecimal(n)) == Success(n)
  {
    assert PadLeft(NatToDecimal(n), 0) == NatToDecimal(n);
    ParsePadded(n, 0);
  }

  /**
   * The map the decoder gives for an SGTIN-96 image: Integer.parseInt reads
   * the filter, the partition and the zero-filled company prefix and item
   * reference back as the values that were written, so reserialising
   * encodes those texts again.
   */
  lemma {:induction false} ReserialiseFields(f: nat, p: nat, c: nat, i: nat, serial: string, sn: string)
    requires f <= 7 && p <= 6 && c <= IntMax && i <= IntMax && NumericText(sn)
    ensures var cp, ir := PadLeft(NatToDecimal(c), 12 - p), PadLeft(NatToDecimal(i), p + 1);
      var m := AsMap(SgtinFields(Sgtin96, f, p, c, i, serial));
      NumericText(cp) && NumericText(ir) && ParseInt(cp) == Success(c) && ParseInt(ir) == Success(i)
      && NumericFields(m) && ReserialiseMap(m, sn) == Sgtin96Encoding(f, p, cp, ir, sn)
  {
    var cp, ir := PadLeft(NatToDecimal(c), 12 - p), PadLeft(NatToDecimal(i), p + 1);
    PaddedField(c, 12 - p);
    PaddedField(i, p + 1);
    assert SgtinFields(Sgtin96, f, p, c, i, serial) == Fields(Sgtin96, NatToDecimal(f), NatToDecimal(p), cp, SgtinReferences(ir, Some(serial)));
    Sgtin96RecordReserialised(f, p, cp, ir, serial, sn);
  }

  /** The map of an SGTIN-96 record with numeric prefix and reference is encoded again from those texts. */
  lemma {:induction false} Sgtin96RecordReserialised(f: nat, p: nat, cp: string, ir: string, serial: string, sn: string)
    requires f <= 7 && p <= 6 && NumericText(cp) && NumericText(ir) && NumericText(sn)
    ensures var m := AsMap(Fields(Sgtin96, NatToDecimal(f), NatToDecimal(p), cp, SgtinReferences(ir, Some(serial))));
      NumericFields(m) && ReserialiseMap(m, sn) == Sgtin96Encoding(f, p, cp, ir, sn)
  {
    var d := Fields(Sgtin96, NatToDecimal(f), NatToDecimal(p), cp, SgtinReferences(ir, Some(serial)));
    var m := AsMap(d);
    AsMapShape(d);
    ParseShown(f);
    ParseShown(p);
    assert m[Header] == Sgtin96.Name() && m[Filter] == NatToDecimal(f) && m[Partition] == NatToDecimal(p);
    assert m[CompanyPrefix] == cp && m[ItemReference] == ir;
    Sgtin96MapReserialised(m, f, p, sn);
  }

  /** An SGTIN-96 map whose filter and partition parse is encoded again from its own prefix and reference. */
  lemma {:induction false} Sgtin96MapReserialised(m: TagMap, f: nat, p: int, sn: string)
    requires Header in m && m[Header] == Sgtin96.Name() && CompanyPrefix in m && ItemReference in m
    requires Filter in m && ParseInt(m[Filter]) == Success(f) && Partition in m && ParseInt(m[Partition]) == Success(p)
    requires NumericText(m[CompanyPrefix]) && NumericText(m[ItemReference]) && NumericText(sn)
    ensures NumericFields(m)
    ensures ReserialiseMap(m, sn) == Sgtin96Encoding(f, p, m[CompanyPrefix], m[ItemReference], sn)
  {
    assert ItemReferenceOf(m) == Success(Some(m[ItemReference]));
  }

  /**
   * createSGTIN_96HexEPC(epc, serialNumber) on an image the SGTIN-96 encoder
   * wrote is that encoder applied to the same filter, partition, company
   * prefix and item reference with the new serial: reserialising keeps
   * every field but the serial, and with the old serial it gives the image
   * back.
   */
  lemma {:induction false} ReserialiseImage(f: nat, p: int, cp: string, ir: string, s0: string, hex: string, sn: string)
    requires NumericText(cp) && NumericText(ir) && NumericText(s0) && NumericText(sn)
    requires Sgtin96Encoding(f, p, cp, ir, s0) == Success(hex)
    ensures Reserialise(hex, sn) == Sgtin96Encoding(f, p, cp, ir, sn)
    ensures Reserialise(hex, s0) == Success(hex)
  {
    Sgtin96RoundTrip(f, p, cp, ir, s0, hex);
    assert f <= 7;
    var c, i := ParseInt(cp).value, ParseInt(ir).value;
    var serial := PadLeft(NatToDecimal(ParseLong(s0).value), 12);
    var d := SgtinFields(Sgtin96, f, p, c, i, serial);
    ReserialiseFields(f, p, c, i, serial, sn);
    ReserialiseFields(f, p, c, i, serial, s0);
    SameValuesSameImage(f, p, cp, ir, d.companyPrefix, d.references.itemReference, sn);
    SameValuesSameImage(f, p, cp, ir, d.companyPrefix, d.references.itemReference, s0);
  }
}
