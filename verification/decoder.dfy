/**
 * parseHexString: reads a tag image (hex text) into a map from tag data
 * kinds to decimal or character text. The fields are read at the widths
 * the header and the partition tables give; company prefix, item reference
 * and serial numbers are zero-filled to their decimal lengths.
 *
 * The specification reads the image into a record of fields (Fields) and
 * turns that record into the map the source returns (AsMap); the method
 * ParseHexString fills the map step by step, as the source does.
 */
module Decoder {
  import opened Results
  import opened Text
  import opened BitStrings
  import opened SevenBit
  import opened Tables

  /** The kinds of tag data a decoded map may hold (TAG_DATA). */
  datatype TagData =
    | Header | Filter | Partition | CompanyPrefix | ItemReference | SerialReference
    | SerialNumber | Unallocated | IndividualAssetReference | CageCode

  type TagMap = map<TagData, string>

  /** What the decoder reads after the company prefix. */
  datatype References =
    | SsccReferences(serialReference: string, unallocated: string)
    | SgtinReferences(itemReference: string, serial: Option<string>)

  /** Every field one decoded image holds, as text. */
  datatype Fields = Fields(encoding: Encoding, filter: string, partition: string,
                           companyPrefix: string, references: References)

  /** The kinds of data the decoder stores for each encoding. */
  function FieldsOf(e: Encoding): set<TagData> {
    if e == Sscc then {Header, Filter, Partition, CompanyPrefix, SerialReference, Unallocated}
    else if e == Sgtin96 || e == Sgtin198 then {Header, Filter, Partition, CompanyPrefix, ItemReference, SerialNumber}
    else {Header, Filter, Partition, CompanyPrefix, ItemReference}
  }

  /** The four entries every decoded map starts with, in the order the source puts them. */
  function Base(header: string, filter: string, partition: string, companyPrefix: string): TagMap {
    map[][Header := header][Filter := filter][Partition := partition][CompanyPrefix := companyPrefix]
  }

  /** The map the source returns for a record of decoded fields. */
  function AsMap(d: Fields): TagMap {
    var base := Base(d.encoding.Name(), d.filter, d.partition, d.companyPrefix);
    match d.references
    case SsccReferences(sr, un) => base[SerialReference := sr][Unallocated := un]
    case SgtinReferences(ir, None) => base[ItemReference := ir]
    case SgtinReferences(ir, Some(sn)) => base[ItemReference := ir][SerialNumber := sn]
  }

  /** Long.toString of a field's value, zero-filled to `digits` characters. */
  function DecimalField(bits: string, digits: int): (r: string)
    ensures AllDigits(r) && |r| >= 1 && |r| >= digits
  {
    var d := NatToDecimal(BitsToNat(bits));
    PaddedDigits(d, digits);
    PadLeft(d, digits)
  }

  lemma {:induction false} PaddedDigits(s: string, digits: int)
    requires AllDigits(s)
    ensures AllDigits(PadLeft(s, digits))
  {
    var r := PadLeft(s, digits);
    forall i | 0 <= i < |r|
      ensures IsDigit(r[i])
    {
      if i >= |r| - |s| {
        assert r[i] == r[|r| - |s|..][i - (|r| - |s|)];
      }
    }
  }

  /** A field read by BinStringToLong and zero-filled is the field's DecimalField. */
  lemma {:induction false} FieldText(bits: string, v: nat, digits: int)
    requires v == BitsToNat(bits)
    ensures PadLeft(NatToDecimal(v), digits) == DecimalField(bits, digits)
  {
  }

  /**
   * The decoder's reading of an image's bits: header, filter and partition,
   * the company prefix, and then the fields the header calls for.
   */
  function DecodeFields(bits: string): Result<Fields> {
    if |bits| < 8 then Failure(IndexOutOfRange)
    else DecodeAfterHeader(HeaderEncoding(BitsToNat(bits[..8])), bits)
  }

  /** The decoder once the header byte has been looked up in the header table. */
  function DecodeAfterHeader(enc: Option<Encoding>, bits: string): Result<Fields> {
    if enc.None? then Failure(UnsupportedHeader)
    else if |bits| < 14 then Failure(IndexOutOfRange)
    else DecodeAfterPartition(enc.value, BitsToNat(bits[11..14]), bits)
  }

  /** The decoder once the partition value has been read. */
  function DecodeAfterPartition(enc: Encoding, p: nat, bits: string): Result<Fields> {
    if !IsPartition(p) then Failure(InvalidPartition)
    else if |bits| < 14 + CompanyPrefixBits(p) then Failure(IndexOutOfRange)
    else
      var refs :- DecodeReferences(enc, p, bits);
      Success(Fields(enc, NatToDecimal(BitsToNat(bits[8..11])), NatToDecimal(p),
                     DecimalField(bits[14..14 + CompanyPrefixBits(p)], 12 - p), refs))
  }

  /** The fields after the company prefix: item reference and serial, or SSCC serial reference. */
  function DecodeReferences(enc: Encoding, p: int, bits: string): Result<References>
    requires IsPartition(p) && 14 + CompanyPrefixBits(p) <= |bits|
  {
    var cpEnd := 14 + CompanyPrefixBits(p);
    if enc == Sscc then
      var srEnd := cpEnd + SerialReferenceBits(p);
      if |bits| < srEnd then Failure(IndexOutOfRange)
      else Success(SsccReferences(DecimalField(bits[cpEnd..srEnd], 17 - (12 - p)),
                                  NatToDecimal(BitsToNat(bits[srEnd..]))))
    else
      var irEnd := cpEnd + ItemReferenceBits(p);
      if |bits| < irEnd then Failure(IndexOutOfRange)
      else
        var ir := DecimalField(bits[cpEnd..irEnd], 13 - (12 - p));
        if enc == Sgtin96 then Success(SgtinReferences(ir, Some(DecimalField(bits[irEnd..], 12))))
        else if enc == Sgtin198 then Success(SgtinReferences(ir, Some(PadLeft(Unpack7(bits[irEnd..]), 20))))
        else Success(SgtinReferences(ir, None))
  }

  /** The fields of a hex image, or why it cannot be read. */
  function ParseFields(hex: string): Result<Fields> {
    match HexToBits(hex)
    case Failure(e) => Failure(e)
    case Success(bits) => DecodeFields(bits)
  }

  /** The map of decoded fields, or the failure that stopped the decoder. */
  function Mapped(d: Result<Fields>): Result<TagMap> {
    match d
    case Failure(e) => Failure(e)
    case Success(fields) => Success(AsMap(fields))
  }

  /** parseHexString's result: the map of a hex image's fields. */
  function Parse(hex: string): Result<TagMap> {
    Mapped(ParseFields(hex))
  }

  /** The map of the fields of a bit string. */
  function DecodeBits(bits: string): Result<TagMap> {
    Mapped(DecodeFields(bits))
  }

  /**
   * parseHexString as the source writes it: the stored header text selects
   * the fields to read. The header is always one of the nine encoding names,
   * so the source's final else branch cannot be reached and is not modelled;
   * the reserved encodings read nothing after the item reference.
   */
  method ParseHexString(hexData: string) returns (r: Result<TagMap>)
    ensures r == Parse(hexData)
  {
    var bin := HexToBinaryString(hexData);
    if bin.Failure? {
      return Failure(MalformedHex);
    }
    r := ParseBits(bin.value);
  }

  /** parseHexString from the bit string on: header, filter, partition and company prefix. */
  method ParseBits(binaryData: string) returns (r: Result<TagMap>)
    ensures r == DecodeBits(binaryData)
  {
    var data: TagMap := map[];
    var offs := 0;
    if |binaryData| < 8 {
      return Failure(IndexOutOfRange);
    }
    var header := BinStringToLong(binaryData[offs..offs + 8]);
    assert binaryData[offs..offs + 8] == binaryData[..8];
    offs := offs + 8;
    var enc := HeaderEncoding(header);
    assert DecodeFields(binaryData) == DecodeAfterHeader(enc, binaryData);
    if enc.None? {
      return Failure(UnsupportedHeader);
    }
    data := data[Header := enc.value.Name()];
    if |binaryData| < offs + 6 {
      return Failure(IndexOutOfRange);
    }
    var filter := BinStringToLong(binaryData[offs..offs + 3]);
    assert binaryData[offs..offs + 3] == binaryData[8..11];
    offs := offs + 3;
    data := data[Filter := NatToDecimal(filter)];
    var partitionValue := BinStringToLong(binaryData[offs..offs + 3]);
    offs := offs + 3;
    data := data[Partition := NatToDecimal(partitionValue)];
    assert binaryData[11..14] == binaryData[offs - 3..offs];
    assert DecodeFields(binaryData) == DecodeAfterPartition(enc.value, partitionValue, binaryData);
    if !IsPartition(partitionValue) {
      return Failure(InvalidPartition);
    }
    var compPrefixBinaryLength := CompanyPrefixBits(partitionValue);
    var compPrefixDecimalLength := 12 - partitionValue;
    if |binaryData| < offs + compPrefixBinaryLength {
      return Failure(IndexOutOfRange);
    }
    assert offs == 14;
    var compPrefix := BinStringToLong(binaryData[offs..offs + compPrefixBinaryLength]);
    FieldText(binaryData[offs..offs + compPrefixBinaryLength], compPrefix, compPrefixDecimalLength);
    offs := offs + compPrefixBinaryLength;
    var cpText := FillLeftWithZeros(NatToDecimal(compPrefix), compPrefixDecimalLength);
    data := data[CompanyPrefix := cpText];
    assert data == Base(enc.value.Name(), NatToDecimal(filter), NatToDecimal(partitionValue), cpText);
    r := ReadReferences(binaryData, data, enc.value, partitionValue, offs,
                        NatToDecimal(filter), NatToDecimal(partitionValue), cpText);
    CompanyPrefixStep(binaryData, enc.value, partitionValue, NatToDecimal(filter), NatToDecimal(partitionValue), cpText);
  }

  lemma {:induction false} CompanyPrefixStep(bits: string, enc: Encoding, p: nat, f: string, pt: string, c: string)
    requires IsPartition(p) && 14 + CompanyPrefixBits(p) <= |bits|
    requires f == NatToDecimal(BitsToNat(bits[8..11])) && pt == NatToDecimal(p)
    requires c == DecimalField(bits[14..14 + CompanyPrefixBits(p)], 12 - p)
    ensures Mapped(DecodeAfterPartition(enc, p, bits)) == Assembled(enc, p, bits, f, pt, c)
  {
  }

  /** The map DecodeReferences leads to, given the text of the first four fields. */
  function Assembled(enc: Encoding, p: int, bits: string, f: string, pt: string, c: string): Result<TagMap>
    requires IsPartition(p) && 14 + CompanyPrefixBits(p) <= |bits|
  {
    match DecodeReferences(enc, p, bits)
    case Failure(e) => Failure(e)
    case Success(refs) => Success(AsMap(Fields(enc, f, pt, c, refs)))
  }

  /**
   * The second half of parseHexString, from the item reference on, given
   * the map of the first four fields.
   */
  method ReadReferences(binaryData: string, data0: TagMap, enc: Encoding, p: int, offs0: nat,
                        ghost f: string, ghost pt: string, ghost c: string)
    returns (r: Result<TagMap>)
    requires IsPartition(p) && offs0 == 14 + CompanyPrefixBits(p) && offs0 <= |binaryData|
    requires data0 == Base(enc.Name(), f, pt, c)
    ensures r == Assembled(enc, p, binaryData, f, pt, c)
  {
    var data := data0;
    var offs := offs0;
    assert data[Header] == enc.Name();
    NamesDistinct(enc, Sscc);
    if data[Header] != Sscc.Name() {
      var withRef := ReadItemReference(binaryData, data, p, offs);
      if withRef.Failure? {
        ItemReferenceMissing(binaryData, enc, p, f, pt, c);
        return withRef;
      }
      data := withRef.value;
      offs := offs + ItemReferenceBits(p);
    }
    r := ReadSerial(binaryData, data, enc, p, offs);
    if enc == Sscc {
      SsccAssembled(binaryData, p, f, pt, c, r);
    } else {
      SgtinAssembled(binaryData, enc, p, f, pt, c, r);
    }
  }

  lemma {:induction false} ItemReferenceMissing(bits: string, enc: Encoding, p: int, f: string, pt: string, c: string)
    requires IsPartition(p) && 14 + CompanyPrefixBits(p) <= |bits|
    requires enc != Sscc && 14 + CompanyPrefixBits(p) + ItemReferenceBits(p) > |bits|
    ensures Assembled(enc, p, bits, f, pt, c) == Failure(IndexOutOfRange)
  {
  }

  lemma {:induction false} SsccAssembled(bits: string, p: int, f: string, pt: string, c: string, r: Result<TagMap>)
    requires IsPartition(p) && 14 + CompanyPrefixBits(p) <= |bits|
    requires var srEnd := 14 + CompanyPrefixBits(p) + SerialReferenceBits(p);
      (srEnd > |bits| ==> r == Failure(IndexOutOfRange))
      && (srEnd <= |bits| ==>
            r == Success(Base(Sscc.Name(), f, pt, c)
                           [SerialReference := DecimalField(bits[14 + CompanyPrefixBits(p)..srEnd], 17 - (12 - p))]
                           [Unallocated := NatToDecimal(BitsToNat(bits[srEnd..]))]))
    ensures r == Assembled(Sscc, p, bits, f, pt, c)
  {
  }

  lemma {:induction false} SgtinAssembled(bits: string, enc: Encoding, p: int, f: string, pt: string, c: string, r: Result<TagMap>)
    requires IsPartition(p) && 14 + CompanyPrefixBits(p) + ItemReferenceBits(p) <= |bits| && enc != Sscc
    requires var cpEnd := 14 + CompanyPrefixBits(p);
      var irEnd := cpEnd + ItemReferenceBits(p);
      var withRef := Base(enc.Name(), f, pt, c)[ItemReference := DecimalField(bits[cpEnd..irEnd], 13 - (12 - p))];
      (enc == Sgtin96 ==> r == Success(withRef[SerialNumber := DecimalField(bits[irEnd..], 12)]))
      && (enc == Sgtin198 ==> r == Success(withRef[SerialNumber := PadLeft(Unpack7(bits[irEnd..]), 20)]))
      && (enc !in {Sgtin96, Sscc, Sgtin198} ==> r == Success(withRef))
    ensures r == Assembled(enc, p, bits, f, pt, c)
  {
  }

  /** The item reference every encoding but SSCC stores, zero-filled to p + 1 digits. */
  method ReadItemReference(binaryData: string, data: TagMap, p: int, offs: nat)
    returns (r: Result<TagMap>)
    requires IsPartition(p) && offs <= |binaryData|
    ensures offs + ItemReferenceBits(p) > |binaryData| ==> r == Failure(IndexOutOfRange)
    ensures offs + ItemReferenceBits(p) <= |binaryData| ==>
      r == Success(data[ItemReference := DecimalField(binaryData[offs..offs + ItemReferenceBits(p)], 13 - (12 - p))])
  {
    var compPrefixDecimalLength := 12 - p;
    var itemRefLength := AssetReferenceBits(p) - 38;
    if |binaryData| < offs + itemRefLength {
      return Failure(IndexOutOfRange);
    }
    var itemreference := BinStringToLong(binaryData[offs..offs + itemRefLength]);
    FieldText(binaryData[offs..offs + itemRefLength], itemreference, 13 - compPrefixDecimalLength);
    var itemRef := FillLeftWithZeros(NatToDecimal(itemreference), 13 - compPrefixDecimalLength);
    return Success(data[ItemReference := itemRef]);
  }

  /** The serial fields, chosen by comparing the stored header with the encoding names. */
  method ReadSerial(binaryData: string, data0: TagMap, enc: Encoding, p: int, offs0: nat)
    returns (r: Result<TagMap>)
    requires IsPartition(p) && offs0 <= |binaryData|
    requires Header in data0 && data0[Header] == enc.Name()
    ensures enc == Sgtin96 ==> r == Success(data0[SerialNumber := DecimalField(binaryData[offs0..], 12)])
    ensures enc == Sscc && offs0 + SerialReferenceBits(p) > |binaryData| ==> r == Failure(IndexOutOfRange)
    ensures enc == Sscc && offs0 + SerialReferenceBits(p) <= |binaryData| ==>
      r == Success(data0[SerialReference := DecimalField(binaryData[offs0..offs0 + SerialReferenceBits(p)], 17 - (12 - p))]
                        [Unallocated := NatToDecimal(BitsToNat(binaryData[offs0 + SerialReferenceBits(p)..]))])
    ensures enc == Sgtin198 ==> r == Success(data0[SerialNumber := PadLeft(Unpack7(binaryData[offs0..]), 20)])
    ensures enc !in {Sgtin96, Sscc, Sgtin198} ==> r == Success(data0)
  {
    var data := data0;
    var offs := offs0;
    NamesDistinct(enc, Sscc);
    NamesDistinct(enc, Sgtin96);
    NamesDistinct(enc, Sgtin198);
    if data[Header] == Sgtin96.Name() {
      var serial := BinStringToLong(binaryData[offs..]);
      FieldText(binaryData[offs..], serial, 12);
      var sn := FillLeftWithZeros(NatToDecimal(serial), 12);
      data := data[SerialNumber := sn];
    } else if data[Header] == Sscc.Name() {
      r := ReadSerialReference(binaryData, data, p, offs);
      return;
    } else if data[Header] == Sgtin198.Name() {
      var ascii := BinStringTo7BitAscii(binaryData[offs..|binaryData|]);
      assert binaryData[offs..|binaryData|] == binaryData[offs..];
      var sn := FillLeftWithZeros(ascii, 20);
      data := data[SerialNumber := sn];
    }
    return Success(data);
  }

  /** The SSCC serial reference, zero-filled to p + 5 digits, and the unallocated bits after it. */
  method ReadSerialReference(binaryData: string, data0: TagMap, p: int, offs0: nat)
    returns (r: Result<TagMap>)
    requires IsPartition(p) && offs0 <= |binaryData|
    ensures offs0 + SerialReferenceBits(p) > |binaryData| ==> r == Failure(IndexOutOfRange)
    ensures offs0 + SerialReferenceBits(p) <= |binaryData| ==>
      r == Success(data0[SerialReference := DecimalField(binaryData[offs0..offs0 + SerialReferenceBits(p)], 17 - (12 - p))]
                        [Unallocated := NatToDecimal(BitsToNat(binaryData[offs0 + SerialReferenceBits(p)..]))])
  {
    var data := data0;
    var offs := offs0;
    var compPrefixDecimalLength := 12 - p;
    var serialRefLength := SerialReferenceBits(p);
    if |binaryData| < offs + serialRefLength {
      return Failure(IndexOutOfRange);
    }
    var serialreference := BinStringToLong(binaryData[offs..offs + serialRefLength]);
    var snLength := 17 - compPrefixDecimalLength;
    FieldText(binaryData[offs..offs + serialRefLength], serialreference, snLength);
    offs := offs + serialRefLength;
    var sr := FillLeftWithZeros(NatToDecimal(serialreference), snLength);
    data := data[SerialReference := sr];
    var unallocated := BinStringToLong(binaryData[offs..]);
    data := data[Unallocated := NatToDecimal(unallocated)];
    return Success(data);
  }

  // ---------------------------------------------------------------------
  // Lemmas

  /** The references a record holds match its encoding, as the decoder's branches choose them. */
  predicate WellShaped(d: Fields) {
    (d.encoding == Sscc <==> d.references.SsccReferences?)
    && (d.references.SgtinReferences? ==>
          (d.references.serial.Some? <==> d.encoding == Sgtin96 || d.encoding == Sgtin198))
  }

  /**
   * The decoder fails on an unknown header, on partition value 7 and on an
   * image too short for its fields; it succeeds on every other image, the
   * shortest being 58 bits (72 for SSCC).
   */
  lemma {:induction false} DecodeFailures(bits: string)
    ensures |bits| < 8 ==> DecodeFields(bits) == Failure(IndexOutOfRange)
    ensures DecodeFields(bits) == Failure(UnsupportedHeader) <==>
      |bits| >= 8 && HeaderEncoding(BitsToNat(bits[..8])).None?
    ensures DecodeFields(bits) == Failure(InvalidPartition) <==>
      |bits| >= 14 && HeaderEncoding(BitsToNat(bits[..8])).Some? && BitsToNat(bits[11..14]) == 7
    ensures DecodeFields(bits).Success? <==>
      |bits| >= 14 && HeaderEncoding(BitsToNat(bits[..8])).Some? && BitsToNat(bits[11..14]) != 7
      && |bits| >= (if HeaderEncoding(BitsToNat(bits[..8])).value == Sscc then 72 else 58)
  {
    if |bits| >= 14 {
      assert Pow2(3) == 8;
      var p := BitsToNat(bits[11..14]);
      if IsPartition(p) {
        PartitionLayout(p);
      }
    }
  }

  /**
   * What a successful decoding holds: the encoding the header byte names,
   * the references its branch reads, and decimal fields at least as long as
   * the partition's digit counts (12 - p for the company prefix, p + 1 for
   * the item reference, p + 5 for the SSCC serial reference).
   */
  lemma {:induction false} DecodeShape(bits: string)
    requires DecodeFields(bits).Success?
    ensures var d := DecodeFields(bits).value;
      var p := BitsToNat(bits[11..14]);
      |bits| >= 14 && IsPartition(p)
      && HeaderEncoding(BitsToNat(bits[..8])) == Some(d.encoding)
      && d.encoding.Header() == BitsToNat(bits[..8])
      && WellShaped(d)
      && d.filter == NatToDecimal(BitsToNat(bits[8..11])) && d.partition == NatToDecimal(p)
      && AllDigits(d.companyPrefix) && |d.companyPrefix| >= 12 - p
      && (d.references.SgtinReferences? ==>
            AllDigits(d.references.itemReference) && |d.references.itemReference| >= p + 1)
      && (d.references.SsccReferences? ==>
            AllDigits(d.references.serialReference) && |d.references.serialReference| >= p + 5)
  {
  }

  /**
   * The map of a well-shaped record holds exactly the kinds of data its
   * encoding calls for, the header being the encoding's name.
   */
  lemma {:induction false} AsMapShape(d: Fields)
    requires WellShaped(d)
    ensures AsMap(d).Keys == FieldsOf(d.encoding)
    ensures AsMap(d)[Header] == d.encoding.Name()
    ensures AsMap(d)[Filter] == d.filter && AsMap(d)[Partition] == d.partition
    ensures AsMap(d)[CompanyPrefix] == d.companyPrefix
    ensures d.references.SgtinReferences? ==> AsMap(d)[ItemReference] == d.references.itemReference
    ensures d.references.SsccReferences? ==>
      AsMap(d)[SerialReference] == d.references.serialReference
      && AsMap(d)[Unallocated] == d.references.unallocated
    ensures d.references.SgtinReferences? && d.references.serial.Some? ==>
      AsMap(d)[SerialNumber] == d.references.serial.value
  {
  }

  /** A record is determined by its map: no two well-shaped records decode to the same map. */
  lemma {:induction false} AsMapInjective(d: Fields, e: Fields)
    requires WellShaped(d) && WellShaped(e) && AsMap(d) == AsMap(e)
    ensures d == e
  {
    AsMapShape(d);
    AsMapShape(e);
    NamesDistinct(d.encoding, e.encoding);
    if d.references.SgtinReferences? && d.references.serial.None? {
      assert SerialNumber !in AsMap(d);
    }
    if e.references.SgtinReferences? && e.references.serial.None? {
      assert SerialNumber !in AsMap(e);
    }
  }
}
