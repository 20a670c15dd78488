/**
 * The three tag encoders (createSGTIN_96HexEPC, createSGTIN_198HexEPC,
 * createSSCCHexEPC) and their GTIN / company-prefix convenience overloads.
 * Each encoder checks its inputs in the source's order, lays out the
 * header, filter, partition and reference fields as a bit string, and
 * turns that into upper-case hex four bits at a time.
 */
module Encoder {
  import opened Results
  import opened Text
  import opened BitStrings
  import opened SevenBit
  import opened Tables

  /** The largest serial number the SGTIN-96 range check lets through: 2^38. */
  const SerialLimit: nat := 274877906944

  /** The width of the unallocated field that closes an SSCC-96 image. */
  const SsccUnallocatedBits: nat := 24

  /** fillLeftWithZeros(Integer.toBinaryString(v), width): zero-filled, never truncated. */
  function ValueBits(v: nat, width: nat): (r: string)
    ensures |r| == if |NatToBits(v)| < width then width else |NatToBits(v)|
    ensures IsBits(r) && BitsToNat(r) == v
  {
    ZeroPaddedValue(NatToBits(v), width);
    NatToBitsValue(v);
    PadLeft(NatToBits(v), width)
  }

  /** The 8-bit header, 3-bit filter and 3-bit partition fields every encoder starts with. */
  function HeadBits(header: nat, filter: nat, partition: nat): string {
    ValueBits(header, 8) + ValueBits(filter, 3) + ValueBits(partition, 3)
  }

  /**
   * The SGTIN encoders' checks on partition, company prefix and item
   * reference, in source order; on success the two parsed values.
   */
  function CheckedReferences(partition: int, cp: string, ir: string): (r: Result<(nat, nat)>)
    requires NumericText(cp) && NumericText(ir)
    ensures r.Success? ==> IsPartition(partition)
    ensures r.Success? ==> r.value.0 < Pow2(CompanyPrefixBits(partition))
    ensures r.Success? ==> r.value.1 < Pow2(ItemReferenceBits(partition))
  {
    if !IsPartition(partition) then Failure(InvalidPartition)
    else
      var c :- ParseInt(cp);
      if |NatToBits(c)| > CompanyPrefixBits(partition) then Failure(CompanyPrefixTooLong)
      else
        var i :- ParseInt(ir);
        if |NatToBits(i)| > ItemReferenceBits(partition) then Failure(ItemReferenceTooLong)
        else
          NatToBitsLength(c, CompanyPrefixBits(partition));
          NatToBitsLength(i, ItemReferenceBits(partition));
          Success((c, i))
  }

  /** Header, filter, partition, company prefix and item reference of an SGTIN. */
  function SgtinBits(header: nat, filter: nat, partition: int, c: nat, i: nat): string
    requires IsPartition(partition)
  {
    HeadBits(header, filter, partition)
      + ValueBits(c, CompanyPrefixBits(partition)) + ValueBits(i, ItemReferenceBits(partition))
  }

  // ---------------------------------------------------------------------
  // The chunk loops

  /** Lines 206-211: four bits per digit; a shorter last chunk makes substring fail. */
  function StrictImage(bin: string): Result<string> {
    if |bin| % 4 == 0 then Success(ToUpper(HexOfBits(bin))) else Failure(IndexOutOfRange)
  }

  method StrictHex(bin: string) returns (r: Result<string>)
    ensures r == StrictImage(bin)
  {
    var hex := "";
    var offs := 0;
    ghost var chunks := 0;
    while offs < |bin|
      invariant 0 <= offs <= |bin| && offs == 4 * chunks
      invariant HexFrom(bin, offs, hex) == HexFrom(bin, 0, "")
    {
      if offs + 4 > |bin| {
        Unaligned(|bin|, chunks);
        return Failure(IndexOutOfRange);
      }
      var digit := BinaryStringToHex(bin[offs..offs + 4]);
      hex := hex + digit;
      offs := offs + 4;
      chunks := chunks + 1;
    }
    Aligned(|bin|, chunks);
    HexFromStart(bin);
    return Success(ToUpper(hex));
  }

  lemma {:induction false} Unaligned(n: nat, k: nat)
    requires 4 * k < n < 4 * k + 4
    ensures n % 4 != 0
  {
  }

  lemma {:induction false} Aligned(n: nat, k: nat)
    requires n == 4 * k
    ensures n % 4 == 0
  {
  }

  /** Lines 237-242: four bits per digit; a shorter last chunk gives one more digit. */
  method LenientHex(bin: string) returns (r: string)
    ensures r == ToUpper(HexOfBits(bin))
  {
    var hex := "";
    var offs := 0;
    while offs < |bin|
      invariant 0 <= offs
      invariant HexFrom(bin, offs, hex) == HexFrom(bin, 0, "")
    {
      var end := if offs + 4 > |bin| then |bin| else offs + 4;
      var digit := BinaryStringToHex(bin[offs..end]);
      hex := hex + digit;
      offs := offs + 4;
    }
    HexFromStart(bin);
    return ToUpper(hex);
  }

  /** Lines 274-279: the digits of the first 96 bits; a shorter string makes substring fail. */
  function LeadingImage(bin: string): Result<string> {
    if |bin| >= 96 then Success(ToUpper(HexOfBits(bin[..96]))) else Failure(IndexOutOfRange)
  }

  method LeadingHex(bin: string) returns (r: Result<string>)
    ensures r == LeadingImage(bin)
  {
    var hex := "";
    var offs := 0;
    ghost var chunks := 0;
    while offs < 96
      invariant 0 <= offs <= 96 && offs == 4 * chunks && offs <= |bin|
      invariant |bin| >= 96 ==> HexFrom(bin[..96], offs, hex) == HexFrom(bin[..96], 0, "")
    {
      if offs + 4 > |bin| {
        return Failure(IndexOutOfRange);
      }
      if |bin| >= 96 {
        ChunkOfPrefix(bin, offs);
      }
      var digit := BinaryStringToHex(bin[offs..offs + 4]);
      hex := hex + digit;
      offs := offs + 4;
      chunks := chunks + 1;
    }
    HexFromStart(bin[..96]);
    return Success(ToUpper(hex));
  }

  lemma {:induction false} ChunkOfPrefix(bin: string, offs: nat)
    requires offs + 4 <= 96 <= |bin|
    ensures bin[..96][offs..offs + 4] == bin[offs..offs + 4]
  {
  }

  // ---------------------------------------------------------------------
  // SGTIN-96

  /** The bit string createSGTIN_96HexEPC builds, or the first check that fails. */
  function Sgtin96Bits(filter: nat, partition: int, cp: string, ir: string, serial: string): Result<string>
    requires NumericText(cp) && NumericText(ir) && NumericText(serial)
  {
    match ParseLong(serial)
    case Failure(_) => Failure(SerialNotNumeric)
    case Success(sn) =>
      if sn > SerialLimit then Failure(SerialOutOfRange)
      else if filter > 7 then Failure(FilterOutOfRange)
      else
        var refs :- CheckedReferences(partition, cp, ir);
        Success(SgtinBits(48, filter, partition, refs.0, refs.1) + ValueBits(sn, 38))
  }

  function Sgtin96Encoding(filter: nat, partition: int, cp: string, ir: string, serial: string): Result<string>
    requires NumericText(cp) && NumericText(ir) && NumericText(serial)
  {
    var bin :- Sgtin96Bits(filter, partition, cp, ir, serial);
    StrictImage(bin)
  }

  method CreateSgtin96HexEpc(filter: nat, partition: int, compPrefix: string, itemRef: string, serialNumber: string)
    returns (r: Result<string>)
    requires NumericText(compPrefix) && NumericText(itemRef) && NumericText(serialNumber)
    ensures r == Sgtin96Encoding(filter, partition, compPrefix, itemRef, serialNumber)
  {
    var sn := ParseLong(serialNumber);
    if sn.Failure? {
      return Failure(SerialNotNumeric);
    }
    if sn.value > SerialLimit {
      return Failure(SerialOutOfRange);
    }
    if filter > 7 {
      return Failure(FilterOutOfRange);
    }
    var bHeader := FillLeftWithZeros(NatToBits(48), 8);
    var bFilter := FillLeftWithZeros(NatToBits(filter), 3);
    if !IsPartition(partition) {
      return Failure(InvalidPartition);
    }
    var bPartition := FillLeftWithZeros(NatToBits(partition), 3);
    var compPrefixLength := CompanyPrefixBits(partition);
    var cp := ParseInt(compPrefix);
    if cp.Failure? {
      return Failure(MalformedNumber);
    }
    if |NatToBits(cp.value)| > compPrefixLength {
      return Failure(CompanyPrefixTooLong);
    }
    var bCompPrefix := FillLeftWithZeros(NatToBits(cp.value), compPrefixLength);
    var itemRefLength := AssetReferenceBits(partition) - 38;
    var ir := ParseInt(itemRef);
    if ir.Failure? {
      return Failure(MalformedNumber);
    }
    if |NatToBits(ir.value)| > itemRefLength {
      return Failure(ItemReferenceTooLong);
    }
    var bItemRef := FillLeftWithZeros(NatToBits(ir.value), itemRefLength);
    var bSerialNumber := FillLeftWithZeros(NatToBits(sn.value), 38);
    var bin := bHeader + bFilter + bPartition + bCompPrefix + bItemRef + bSerialNumber;
    assert CheckedReferences(partition, compPrefix, itemRef) == Success((cp.value, ir.value));
    assert bin == SgtinBits(48, filter, partition, cp.value, ir.value) + ValueBits(sn.value, 38);
    r := StrictHex(bin);
  }

  // ---------------------------------------------------------------------
  // SGTIN-198

  /** The bit string createSGTIN_198HexEPC builds, or the first check that fails. */
  function Sgtin198Bits(filter: nat, partition: int, cp: string, ir: string, serial: string): Result<string>
    requires NumericText(cp) && NumericText(ir) && IsAscii(serial)
  {
    if |serial| > 20 then Failure(SerialTooLong)
    else if filter > 7 then Failure(FilterOutOfRange)
    else
      var refs :- CheckedReferences(partition, cp, ir);
      Success(SgtinBits(54, filter, partition, refs.0, refs.1) + PadRight(Pack7(serial), 140))
  }

  function Sgtin198Encoding(filter: nat, partition: int, cp: string, ir: string, serial: string): Result<string>
    requires NumericText(cp) && NumericText(ir) && IsAscii(serial)
  {
    var bin :- Sgtin198Bits(filter, partition, cp, ir, serial);
    Success(ToUpper(HexOfBits(bin)))
  }

  method CreateSgtin198HexEpc(filter: nat, partition: int, compPrefix: string, itemRef: string, serialNumber: string)
    returns (r: Result<string>)
    requires NumericText(compPrefix) && NumericText(itemRef) && IsAscii(serialNumber)
    ensures r == Sgtin198Encoding(filter, partition, compPrefix, itemRef, serialNumber)
  {
    if |serialNumber| > 20 {
      return Failure(SerialTooLong);
    }
    if filter > 7 {
      return Failure(FilterOutOfRange);
    }
    var bHeader := FillLeftWithZeros(NatToBits(54), 8);
    var bFilter := FillLeftWithZeros(NatToBits(filter), 3);
    if !IsPartition(partition) {
      return Failure(InvalidPartition);
    }
    var bPartition := FillLeftWithZeros(NatToBits(partition), 3);
    var compPrefixLength := CompanyPrefixBits(partition);
    var cp := ParseInt(compPrefix);
    if cp.Failure? {
      return Failure(MalformedNumber);
    }
    if |NatToBits(cp.value)| > compPrefixLength {
      return Failure(CompanyPrefixTooLong);
    }
    var bCompPrefix := FillLeftWithZeros(NatToBits(cp.value), compPrefixLength);
    var itemRefLength := AssetReferenceBits(partition) - 38;
    var ir := ParseInt(itemRef);
    if ir.Failure? {
      return Failure(MalformedNumber);
    }
    if |NatToBits(ir.value)| > itemRefLength {
      return Failure(ItemReferenceTooLong);
    }
    var bItemRef := FillLeftWithZeros(NatToBits(ir.value), itemRefLength);
    var packed := ToBinaryString(serialNumber);
    var bSerialNumber := FillRightWithZeros(packed, 140);
    var bin := bHeader + bFilter + bPartition + bCompPrefix + bItemRef + bSerialNumber;
    var hex := LenientHex(bin);
    return Success(hex);
  }

  // ---------------------------------------------------------------------
  // SSCC-96

  /**
   * The bit string createSSCCHexEPC builds, or the first check that fails;
   * neither the company prefix nor the serial reference is checked against
   * its field width.
   */
  function SsccBits(filter: nat, partition: int, cp: string, ext: string, sr: string): Result<string>
    requires NumericText(cp) && NumericText(ext) && NumericText(sr)
  {
    if filter > 7 then Failure(FilterOutOfRange)
    else if !IsPartition(partition) then Failure(InvalidPartition)
    else
      var c :- ParseInt(cp);
      var s :- ParseLong(ext + PadLeft(sr, partition + 4));
      Success(SsccFieldBits(filter, partition, c, s))
  }

  /** Header, filter, partition, company prefix, serial reference and the 24 unallocated bits of an SSCC. */
  function SsccFieldBits(filter: nat, partition: int, c: nat, s: nat): string
    requires IsPartition(partition)
  {
    HeadBits(Sscc.Header(), filter, partition) + ValueBits(c, CompanyPrefixBits(partition))
      + ValueBits(s, SerialReferenceBits(partition)) + PadLeft("0", SsccUnallocatedBits)
  }

  function SsccEncoding(filter: nat, partition: int, cp: string, ext: string, sr: string): Result<string>
    requires NumericText(cp) && NumericText(ext) && NumericText(sr)
  {
    var bin :- SsccBits(filter, partition, cp, ext, sr);
    LeadingImage(bin)
  }

  method CreateSsccHexEpc(filter: nat, partition: int, compPrefix: string, extensionCode: string, serialRef: string)
    returns (r: Result<string>)
    requires NumericText(compPrefix) && NumericText(extensionCode) && NumericText(serialRef)
    ensures r == SsccEncoding(filter, partition, compPrefix, extensionCode, serialRef)
  {
    if filter > 7 {
      return Failure(FilterOutOfRange);
    }
    var bHeader := FillLeftWithZeros(NatToBits(Sscc.Header()), 8);
    var bFilter := FillLeftWithZeros(NatToBits(filter), 3);
    if !IsPartition(partition) {
      return Failure(InvalidPartition);
    }
    var bPartition := FillLeftWithZeros(NatToBits(partition), 3);
    var compPrefixLength := CompanyPrefixBits(partition);
    var cp := ParseInt(compPrefix);
    if cp.Failure? {
      return Failure(MalformedNumber);
    }
    var bCompPrefix := FillLeftWithZeros(NatToBits(cp.value), compPrefixLength);
    var serialRefBitLength := SerialReferenceBits(partition);
    var serialRefDigits := partition + 5;
    var padded := FillLeftWithZeros(serialRef, serialRefDigits - 1);
    var sr := ParseLong(extensionCode + padded);
    if sr.Failure? {
      return Failure(MalformedNumber);
    }
    var bSerialRef := FillLeftWithZeros(NatToBits(sr.value), serialRefBitLength);
    var bUnallocated := FillLeftWithZeros("0", 24);
    var bin := bHeader + bFilter + bPartition + bCompPrefix + bSerialRef + bUnallocated;
    r := LeadingHex(bin);
  }

  // ---------------------------------------------------------------------
  // Convenience overloads

  /** Lines 339-341: company prefix gtin[1..7], item reference gtin[0] + gtin[7..13], partition 6. */
  function Sgtin96FromGtin(rank: nat, gtin: string, sn: string): Result<string>
    requires NumericText(gtin) && NumericText(sn)
  {
    if |gtin| < 13 then Failure(IndexOutOfRange)
    else Sgtin96Encoding(rank, 6, gtin[1..7], gtin[0..1] + gtin[7..13], sn)
  }

  method CreateSgtin96FromGtin(rank: nat, gtin: string, sn: string) returns (r: Result<string>)
    requires NumericText(gtin) && NumericText(sn)
    ensures r == Sgtin96FromGtin(rank, gtin, sn)
  {
    if |gtin| < 13 {
      return Failure(IndexOutOfRange);
    }
    r := CreateSgtin96HexEpc(rank, 6, gtin[1..7], gtin[0..1] + gtin[7..13], sn);
  }

  /** Lines 343-345: the same split, encoded as SGTIN-198. */
  function Sgtin198FromGtin(rank: nat, gtin: string, sn: string): Result<string>
    requires NumericText(gtin) && IsAscii(sn)
  {
    if |gtin| < 13 then Failure(IndexOutOfRange)
    else Sgtin198Encoding(rank, 6, gtin[1..7], gtin[0..1] + gtin[7..13], sn)
  }

  method CreateSgtin198FromGtin(rank: nat, gtin: string, sn: string) returns (r: Result<string>)
    requires NumericText(gtin) && IsAscii(sn)
    ensures r == Sgtin198FromGtin(rank, gtin, sn)
  {
    if |gtin| < 13 {
      return Failure(IndexOutOfRange);
    }
    r := CreateSgtin198HexEpc(rank, 6, gtin[1..7], gtin[0..1] + gtin[7..13], sn);
  }

  /** The partition createSSCCHexEPC picks from the company prefix length. */
  function PrefixPartition(cp: string): (p: int)
    ensures 6 <= |cp| <= 12 ==> IsPartition(p) && 12 - p == |cp|
    ensures |cp| < 6 ==> p == 6
    ensures |cp| > 12 ==> !IsPartition(p)
  {
    if |cp| < 6 then 6 else 12 - |cp|
  }

  function SsccFromPrefix(rank: nat, cp: string, ext: string, sr: string): Result<string>
    requires NumericText(cp) && NumericText(ext) && NumericText(sr)
  {
    SsccEncoding(rank, PrefixPartition(cp), cp, ext, sr)
  }

  method CreateSsccFromPrefix(rank: nat, companyPrefix: string, extensionCode: string, serialRef: string)
    returns (r: Result<string>)
    requires NumericText(companyPrefix) && NumericText(extensionCode) && NumericText(serialRef)
    ensures r == SsccFromPrefix(rank, companyPrefix, extensionCode, serialRef)
  {
    var partition := if |companyPrefix| < 6 then 6 else 12 - |companyPrefix|;
    r := CreateSsccHexEpc(rank, partition, companyPrefix, extensionCode, serialRef);
  }
}
