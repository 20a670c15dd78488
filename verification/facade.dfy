/**
 * The accessors over a decoded map (getGTIN, getSSCC, getSerialNumber,
 * getCompanyPrefix, getItemReference), their hex-image overloads, the header
 * predicates (getEncoding, isSGTIN96, isSGTIN198, isSSCC), the two 96-bit
 * URI builders and the reserialising SGTIN-96 encoder. All of them are
 * expressions over parseHexString's map; a map entry that is missing reads
 * as Java's null.
 */
module Facade {
  import opened Results
  import opened Text
  import opened BitStrings
  import opened Tables
  import opened Checksum
  import opened Decoder
  import opened Encoder

  /** HashMap.get: None stands for null. */
  function Get(m: TagMap, k: TagData): Option<string> {
    if k in m then Some(m[k]) else None
  }

  /** A reference that may be null as string concatenation writes it. */
  function Show(s: Option<string>): string {
    match s
    case None => "null"
    case Some(v) => v
  }

  /** data.get(HEADER) about to be dereferenced: a missing header is a null dereference. */
  function HeaderOf(m: TagMap): (r: Result<string>)
    ensures r.Success? <==> Header in m
    ensures r.Success? ==> r.value == m[Header]
  {
    if Header in m then Success(m[Header]) else Failure(MissingField)
  }

  predicate IsSgtinName(h: string) {
    h == Sgtin96.Name() || h == Sgtin198.Name()
  }

  /**
   * The assembly getGTIN and getSSCC share: the reference's first digit, the
   * company prefix, the rest of the reference, then getChecksum's digit. A
   * null reference fails on its first substring, an empty one on the bounds
   * of that substring, a non-digit anywhere in getChecksum.
   */
  function Assemble(ref: Option<string>, cp: Option<string>): (r: Result<string>)
    ensures ref.None? ==> r == Failure(MissingField)
    ensures ref.Some? && |ref.value| == 0 ==> r == Failure(IndexOutOfRange)
    ensures r.Success? <==> ref.Some? && |ref.value| >= 1 && AllDigits(ref.value) && AllDigits(Show(cp))
    ensures r.Success? && |ref.value| + |Show(cp)| <= 55 ==>
      var c := Show(cp);
      ValidGtin(r.value) && |r.value| == |ref.value| + |c| + 1
      && r.value[..|r.value| - 1] == ref.value[..1] + c + ref.value[1..]
  {
    if ref.None? then Failure(MissingField)
    else if |ref.value| == 0 then Failure(IndexOutOfRange)
    else
      var s := ref.value[..1] + Show(cp) + ref.value[1..];
      JoinedDigits(ref.value, Show(cp));
      match CheckDigit(s)
      case Failure(e) => Failure(e)
      case Success(c) =>
        if |s| <= 55 then
          AppendCheckDigit(s);
          CheckDigitRange(s);
          Success(s + IntToString(c))
        else Success(s + IntToString(c))
  }

  /**
   * What getGTIN and getSSCC return for a reference and a company prefix:
   * the reference's first digit, the prefix and the reference's other
   * digits, completed by the digit that makes the whole a valid GTIN (the
   * check digit stays in 0..9 up to 55 digits).
   */
  predicate GtinOfParts(g: string, ref: string, cp: string) {
    |ref| >= 1
    && (|ref| + |cp| <= 55 ==>
          |g| == |ref| + |cp| + 1 && g[..|g| - 1] == ref[..1] + cp + ref[1..] && ValidGtin(g))
  }

  /** The text Java prints for a null reference is not a number. */
  lemma NullNotDigits()
    ensures !AllDigits(Show(None))
  {
    assert !IsDigit(Show(None)[0]);
  }

  /** The joined digits are digits exactly when both parts are. */
  lemma {:induction false} JoinedDigits(ref: string, cp: string)
    requires |ref| >= 1
    ensures AllDigits(ref[..1] + cp + ref[1..]) <==> AllDigits(ref) && AllDigits(cp)
  {
    var s := ref[..1] + cp + ref[1..];
    if AllDigits(s) {
      forall i | 0 <= i < |ref|
        ensures IsDigit(ref[i])
      {
        if i == 0 {
          assert ref[0] == s[0];
        } else {
          assert ref[i] == s[|cp| + i];
        }
      }
      forall i | 0 <= i < |cp|
        ensures IsDigit(cp[i])
      {
        assert cp[i] == s[1 + i];
      }
    }
  }

  // ---------------------------------------------------------------------
  // Accessors over a decoded map

  /** getSerialNumber(map): the serial number of an SGTIN, the serial reference of an SSCC, else "". */
  function SerialNumberOf(m: TagMap): (r: Result<Option<string>>)
    ensures r.Success? <==> Header in m
    ensures r.Success? && IsSgtinName(m[Header]) ==>
      (r.value.Some? <==> SerialNumber in m) && (r.value.Some? ==> r.value.value == m[SerialNumber])
    ensures r.Success? && m[Header] == Sscc.Name() ==>
      (r.value.Some? <==> SerialReference in m) && (r.value.Some? ==> r.value.value == m[SerialReference])
    ensures r.Success? && !IsSgtinName(m[Header]) && m[Header] != Sscc.Name() ==> r.value == Some("")
  {
    var h :- HeaderOf(m);
    if IsSgtinName(h) then Success(Get(m, SerialNumber))
    else if h == Sscc.Name() then Success(Get(m, SerialReference))
    else Success(Some(""))
  }

  /** getCompanyPrefix(map). */
  function CompanyPrefixOf(m: TagMap): (r: Option<string>)
    ensures r.Some? <==> CompanyPrefix in m
    ensures r.Some? ==> r.value == m[CompanyPrefix]
  {
    Get(m, CompanyPrefix)
  }

  /** getItemReference(map): only an SGTIN-96 map answers; every other header gives null. */
  function ItemReferenceOf(m: TagMap): (r: Result<Option<string>>)
    ensures r.Success? <==> Header in m
    ensures r.Success? && m[Header] != Sgtin96.Name() ==> r.value == None
    ensures r.Success? && m[Header] == Sgtin96.Name() ==>
      (r.value.Some? <==> ItemReference in m) && (r.value.Some? ==> r.value.value == m[ItemReference])
  {
    var h :- HeaderOf(m);
    if h == Sgtin96.Name() then Success(Get(m, ItemReference)) else Success(None)
  }

  /** getGTIN(map): SGTIN maps give item reference digit, prefix, reference rest and check digit; others null. */
  function GtinOf(m: TagMap): (r: Result<Option<string>>)
    ensures Header !in m ==> r == Failure(MissingField)
    ensures Header in m && !IsSgtinName(m[Header]) ==> r == Success(None)
    ensures Header in m && IsSgtinName(m[Header]) ==>
      (r.Success? <==> ItemReference in m && CompanyPrefix in m && |m[ItemReference]| >= 1
                       && AllDigits(m[ItemReference]) && AllDigits(m[CompanyPrefix]))
    ensures Header in m && IsSgtinName(m[Header]) && r.Success? ==>
      r.value.Some? && GtinOfParts(r.value.value, m[ItemReference], m[CompanyPrefix])
  {
    var h :- HeaderOf(m);
    if IsSgtinName(h) then
      NullNotDigits();
      var g :- Assemble(Get(m, ItemReference), Get(m, CompanyPrefix));
      Success(Some(g))
    else Success(None)
  }

  /** getSSCC(map): extension digit, prefix, serial reference rest and check digit; non-SSCC maps give null. */
  function SsccOf(m: TagMap): (r: Result<Option<string>>)
    ensures Header !in m ==> r == Failure(MissingField)
    ensures Header in m && m[Header] != Sscc.Name() ==> r == Success(None)
    ensures Header in m && m[Header] == Sscc.Name() ==>
      (r.Success? <==> SerialReference in m && CompanyPrefix in m && |m[SerialReference]| >= 1
                       && AllDigits(m[SerialReference]) && AllDigits(m[CompanyPrefix]))
    ensures Header in m && m[Header] == Sscc.Name() && r.Success? ==>
      r.value.Some? && GtinOfParts(r.value.value, m[SerialReference], m[CompanyPrefix])
  {
    var h :- HeaderOf(m);
    if h == Sscc.Name() then
      NullNotDigits();
      var s :- Assemble(Get(m, SerialReference), Get(m, CompanyPrefix));
      Success(Some(s))
    else Success(None)
  }

  // ---------------------------------------------------------------------
  // Hex-image overloads

  /** getGTIN(epcHex). */
  function GetGtin(hex: string): (r: Result<Option<string>>)
    ensures Parse(hex).Failure? ==> r == Failure(Parse(hex).error)
    ensures ParseFields(hex).Success? ==> var d := ParseFields(hex).value;
      match d.references
      case SgtinReferences(ir, Some(_)) => r.Success? && r.value.Some? && GtinOfParts(r.value.value, ir, d.companyPrefix)
      case _ => r == Success(None)
  {
    var m :- Parse(hex);
    ParsedRecord(hex);
    RecordGtin(ParseFields(hex).value);
    GtinOf(m)
  }

  /** getSSCC(epcHex). */
  function GetSscc(hex: string): (r: Result<Option<string>>)
    ensures Parse(hex).Failure? ==> r == Failure(Parse(hex).error)
    ensures ParseFields(hex).Success? ==> var d := ParseFields(hex).value;
      match d.references
      case SsccReferences(sr, _) => r.Success? && r.value.Some? && GtinOfParts(r.value.value, sr, d.companyPrefix)
      case _ => r == Success(None)
  {
    var m :- Parse(hex);
    ParsedRecord(hex);
    RecordGtin(ParseFields(hex).value);
    SsccOf(m)
  }

  /** getCompanyPrefix(epcHex). */
  function GetCompanyPrefix(hex: string): (r: Result<Option<string>>)
    ensures r.Success? <==> Parse(hex).Success?
    ensures ParseFields(hex).Success? ==> r == Success(Some(ParseFields(hex).value.companyPrefix))
  {
    var m :- Parse(hex);
    ParsedRecord(hex);
    RecordAccessors(ParseFields(hex).value);
    Success(CompanyPrefixOf(m))
  }

  /** getItemReference(epcHex): unlike the map overload, any header's item reference is returned. */
  function GetItemReference(hex: string): (r: Result<Option<string>>)
    ensures r.Success? <==> Parse(hex).Success?
    ensures ParseFields(hex).Success? ==> r == Success(RecordItemReference(ParseFields(hex).value))
  {
    var m :- Parse(hex);
    ParsedRecord(hex);
    RecordAccessors(ParseFields(hex).value);
    Success(Get(m, ItemReference))
  }

  /** getSerialNumber(epcHex). */
  function GetSerialNumber(hex: string): (r: Result<Option<string>>)
    ensures Parse(hex).Failure? ==> r == Failure(Parse(hex).error)
    ensures ParseFields(hex).Success? ==> r == Success(RecordSerial(ParseFields(hex).value))
  {
    var m :- Parse(hex);
    ParsedRecord(hex);
    RecordAccessors(ParseFields(hex).value);
    SerialNumberOf(m)
  }

  // ---------------------------------------------------------------------
  // The accessors on a decoded record

  /** The item reference the decoder read; an SSCC record has none (null). */
  function RecordItemReference(d: Fields): Option<string> {
    match d.references
    case SgtinReferences(ir, _) => Some(ir)
    case SsccReferences(_, _) => None
  }

  /** The serial of a decoded record: the SGTIN serial, the SSCC serial reference, "" for the reserved encodings. */
  function RecordSerial(d: Fields): Option<string> {
    match d.references
    case SsccReferences(sr, _) => Some(sr)
    case SgtinReferences(_, sn) => if d.encoding == Sgtin96 || d.encoding == Sgtin198 then sn else Some("")
  }

  /**
   * The pure identity URI of a decoded record: company prefix, item
   * reference and serial of an SGTIN-96, company prefix and serial
   * reference of an SSCC; no other encoding has one.
   */
  function RecordIdentityUri(d: Fields): Result<string> {
    match d.references
    case SgtinReferences(ir, Some(sn)) =>
      if d.encoding == Sgtin96 then Success("urn:epc:id:sgtin:" + (d.companyPrefix + "." + ir + "." + sn))
      else Failure(NotSupported)
    case SsccReferences(sr, _) =>
      if d.encoding == Sscc then Success("urn:epc:id:sscc:" + (d.companyPrefix + "." + sr))
      else Failure(NotSupported)
    case _ => Failure(NotSupported)
  }

  /** The tag URI of a decoded record: the identity URI's fields preceded by the filter. */
  function RecordTagUri(d: Fields): Result<string> {
    match d.references
    case SgtinReferences(ir, Some(sn)) =>
      if d.encoding == Sgtin96 then
        Success("urn:epc:tag:sgtin-96:" + (d.filter + "." + d.companyPrefix + "." + ir + "." + sn))
      else Failure(NotSupported)
    case SsccReferences(sr, _) =>
      if d.encoding == Sscc then Success("urn:epc:tag:sscc-96:" + (d.filter + "." + d.companyPrefix + "." + sr))
      else Failure(NotSupported)
    case _ => Failure(NotSupported)
  }

  /** What parseHexString returns for an image it reads: the map of a well-shaped record. */
  lemma {:induction false} ParsedRecord(hex: string)
    requires ParseFields(hex).Success?
    ensures WellShaped(ParseFields(hex).value) && Parse(hex) == Success(AsMap(ParseFields(hex).value))
    ensures DigitRecord(ParseFields(hex).value)
  {
    DecodeShape(HexToBits(hex).value);
  }

  /** A record whose company prefix and references are nonempty digit text, as every decoded record is. */
  predicate DigitRecord(d: Fields) {
    AllDigits(d.companyPrefix)
    && match d.references
       case SgtinReferences(ir, _) => |ir| >= 1 && AllDigits(ir)
       case SsccReferences(sr, _) => |sr| >= 1 && AllDigits(sr)
  }

  /**
   * getGTIN and getSSCC of the map of a decoded record: an SGTIN record
   * always has a GTIN and an SSCC record an SSCC, assembled from its
   * reference and company prefix; every other record answers null.
   */
  lemma {:induction false} RecordGtin(d: Fields)
    requires WellShaped(d) && DigitRecord(d)
    ensures match d.references
      case SgtinReferences(ir, Some(_)) =>
        var g := GtinOf(AsMap(d)); g.Success? && g.value.Some? && GtinOfParts(g.value.value, ir, d.companyPrefix)
      case _ => GtinOf(AsMap(d)) == Success(None)
    ensures match d.references
      case SsccReferences(sr, _) =>
        var g := SsccOf(AsMap(d)); g.Success? && g.value.Some? && GtinOfParts(g.value.value, sr, d.companyPrefix)
      case _ => SsccOf(AsMap(d)) == Success(None)
  {
    AsMapShape(d);
    NamesDistinct(d.encoding, Sgtin96);
    NamesDistinct(d.encoding, Sgtin198);
    NamesDistinct(d.encoding, Sscc);
  }

  /**
   * The map accessors on the map of a decoded record read the record's
   * fields: the company prefix, the item reference, the serial, and the
   * two URIs built from them.
   */
  lemma {:induction false} RecordAccessors(d: Fields)
    requires WellShaped(d)
    ensures CompanyPrefixOf(AsMap(d)) == Some(d.companyPrefix)
    ensures Get(AsMap(d), ItemReference) == RecordItemReference(d)
    ensures SerialNumberOf(AsMap(d)) == Success(RecordSerial(d))
    ensures PureIdentityUriOf(AsMap(d)) == RecordIdentityUri(d)
    ensures TagUriOf(AsMap(d)) == RecordTagUri(d)
  {
    AsMapShape(d);
    NamesDistinct(d.encoding, Sgtin96);
    NamesDistinct(d.encoding, Sgtin198);
    NamesDistinct(d.encoding, Sscc);
  }

  // ---------------------------------------------------------------------
  // Header predicates

  /** getEncoding: the header table's entry for the image's first byte (None where it has none). */
  function GetEncoding(hex: string): Result<Option<Encoding>> {
    match HexToBits(hex)
    case Failure(e) => Failure(e)
    case Success(bits) =>
      if |bits| < 8 then Failure(IndexOutOfRange) else Success(HeaderEncoding(BitsToNat(bits[..8])))
  }

  /**
   * getEncoding fails on text that is not hex (MalformedHex) and on fewer
   * than two digits (IndexOutOfRange); otherwise it looks up the byte the
   * first two digits spell.
   */
  lemma {:induction false} EncodingOfHeaderByte(hex: string)
    ensures !AllHex(hex) ==> GetEncoding(hex) == Failure(MalformedHex)
    ensures AllHex(hex) && |hex| < 2 ==> GetEncoding(hex) == Failure(IndexOutOfRange)
    ensures AllHex(hex) && |hex| >= 2 ==>
      GetEncoding(hex) == Success(HeaderEncoding(16 * HexValue(hex[0]) + HexValue(hex[1])))
  {
    if AllHex(hex) && |hex| >= 2 {
      LeadingByte(hex);
    }
  }

  /** isSGTIN96. */
  function IsSgtin96(hex: string): Result<bool> {
    match GetEncoding(hex)
    case Failure(e) => Failure(e)
    case Success(enc) => Success(enc == Some(Sgtin96))
  }

  /** isSGTIN198. */
  function IsSgtin198(hex: string): Result<bool> {
    match GetEncoding(hex)
    case Failure(e) => Failure(e)
    case Success(enc) => Success(enc == Some(Sgtin198))
  }

  /** isSSCC. */
  function IsSscc(hex: string): Result<bool> {
    match GetEncoding(hex)
    case Failure(e) => Failure(e)
    case Success(enc) => Success(enc == Some(Sscc))
  }

  /**
   * The header predicates answer on every hex text of at least two digits
   * and fail on any other; they hold exactly for images that start with
   * "30" (SGTIN-96), "36" (SGTIN-198) and "31" (SSCC).
   */
  lemma {:induction false} HeaderPredicates(hex: string)
    ensures IsSgtin96(hex).Success? <==> AllHex(hex) && |hex| >= 2
    ensures IsSgtin198(hex).Success? <==> AllHex(hex) && |hex| >= 2
    ensures IsSscc(hex).Success? <==> AllHex(hex) && |hex| >= 2
    ensures IsSgtin96(hex) == Success(true) <==> AllHex(hex) && |hex| >= 2 && hex[..2] == "30"
    ensures IsSgtin198(hex) == Success(true) <==> AllHex(hex) && |hex| >= 2 && hex[..2] == "36"
    ensures IsSscc(hex) == Success(true) <==> AllHex(hex) && |hex| >= 2 && hex[..2] == "31"
  {
    EncodingOfHeaderByte(hex);
    if AllHex(hex) && |hex| >= 2 {
      HeaderPair(hex, Sgtin96);
      HeaderPair(hex, Sgtin198);
      HeaderPair(hex, Sscc);
    }
  }

  /** The first two hex digits of the images the predicates recognise. */
  function HeaderHex(e: Encoding): string {
    if e == Sgtin96 then "30" else if e == Sscc then "31" else "36"
  }

  /** An image starts with the SGTIN-96, SSCC or SGTIN-198 header exactly when its first two digits are theirs. */
  lemma {:induction false} HeaderPair(hex: string, e: Encoding)
    requires AllHex(hex) && |hex| >= 2
    requires e == Sgtin96 || e == Sscc || e == Sgtin198
    ensures HeaderEncoding(16 * HexValue(hex[0]) + HexValue(hex[1])) == Some(e) <==> hex[..2] == HeaderHex(e)
  {
    HeaderTable(16 * HexValue(hex[0]) + HexValue(hex[1]), e);
    if hex[..2] == HeaderHex(e) {
      assert hex[0] == HeaderHex(e)[0] && hex[1] == HeaderHex(e)[1];
    }
  }

  /** getEncoding names the encoding the decoder reads from the same image. */
  lemma {:induction false} EncodingAgreesWithDecoder(hex: string)
    requires ParseFields(hex).Success?
    ensures GetEncoding(hex) == Success(Some(ParseFields(hex).value.encoding))
  {
    var bits := HexToBits(hex).value;
    assert DecodeFields(bits).Success?;
    DecodeShape(bits);
    assert |bits| >= 8;
  }

  /**
   * isSGTIN96, isSGTIN198 and isSSCC agree with the decoder: on an image the
   * decoder reads, each holds exactly when the decoded encoding is its own.
   */
  lemma {:induction false} PredicatesAgreeWithDecoder(hex: string, d: Fields)
    requires ParseFields(hex) == Success(d)
    ensures IsSgtin96(hex) == Success(d.encoding == Sgtin96)
    ensures IsSgtin198(hex) == Success(d.encoding == Sgtin198)
    ensures IsSscc(hex) == Success(d.encoding == Sscc)
  {
    EncodingAgreesWithDecoder(hex);
    PredicatesOfEncoding(hex, d.encoding);
  }

  lemma {:induction false} PredicatesOfEncoding(hex: string, e: Encoding)
    requires GetEncoding(hex) == Success(Some(e))
    ensures IsSgtin96(hex) == Success(e == Sgtin96)
    ensures IsSgtin198(hex) == Success(e == Sgtin198)
    ensures IsSscc(hex) == Success(e == Sscc)
  {
  }

  /** The source's SGTIN-96 example image is recognised as SGTIN-96. */
  lemma Sgtin96HeaderExample()
    ensures IsSgtin96("30381D5D419C238000000001") == Success(true)
  {
    var hex := "30381D5D419C238000000001";
    assert AllHex(hex);
    assert hex[..2] == "30";
    HeaderPredicates(hex);
  }

  // ---------------------------------------------------------------------
  // URI builders and reserialising

  /**
   * createEPCPureIdentityURI_96 on a decoded map: "urn:epc:id:sgtin:" with
   * prefix, item reference and serial for SGTIN-96, "urn:epc:id:sscc:" with
   * prefix and serial reference for SSCC; other headers fail.
   */
  function PureIdentityUriOf(m: TagMap): (r: Result<string>)
    ensures r.Success? <==> Header in m && (m[Header] == Sgtin96.Name() || m[Header] == Sscc.Name())
    ensures r.Success? && m[Header] == Sgtin96.Name() ==>
      |r.value| >= 17 && r.value[..17] == "urn:epc:id:sgtin:"
    ensures r.Success? && m[Header] == Sscc.Name() ==>
      |r.value| >= 16 && r.value[..16] == "urn:epc:id:sscc:"
    ensures r.Success? && m[Header] == Sgtin96.Name() && CompanyPrefix in m && ItemReference in m && SerialNumber in m ==>
      r.value == "urn:epc:id:sgtin:" + (m[CompanyPrefix] + "." + m[ItemReference] + "." + m[SerialNumber])
    ensures r.Success? && m[Header] == Sscc.Name() && CompanyPrefix in m && SerialReference in m ==>
      r.value == "urn:epc:id:sscc:" + (m[CompanyPrefix] + "." + m[SerialReference])
  {
    var h :- HeaderOf(m);
    if h == Sgtin96.Name() then
      // getItemReference(map) of an SGTIN-96 map is its item reference
      Success(Scheme("urn:epc:id:sgtin:", Show(CompanyPrefixOf(m)) + "." + Show(Get(m, ItemReference)) + "."
                                          + Show(Get(m, SerialNumber))))
    else if h == Sscc.Name() then
      Success(Scheme("urn:epc:id:sscc:", Show(CompanyPrefixOf(m)) + "." + Show(Get(m, SerialReference))))
    else Failure(NotSupported)
  }

  /** A URI: its scheme, then the dotted fields. */
  function Scheme(scheme: string, fields: string): (u: string)
    ensures |u| == |scheme| + |fields| && u[..|scheme|] == scheme && u[|scheme|..] == fields
  {
    scheme + fields
  }

  /** createEPCPureIdentityURI_96(epcHex). */
  function PureIdentityUri96(hex: string): (r: Result<string>)
    ensures Parse(hex).Failure? ==> r == Failure(Parse(hex).error)
    ensures ParseFields(hex).Success? ==> r == RecordIdentityUri(ParseFields(hex).value)
  {
    var m :- Parse(hex);
    ParsedRecord(hex);
    RecordAccessors(ParseFields(hex).value);
    PureIdentityUriOf(m)
  }

  /**
   * createEPCTagURI_96 on a decoded map: the same fields preceded by the
   * filter, under "urn:epc:tag:sgtin-96:" or "urn:epc:tag:sscc-96:"; other
   * headers fail.
   */
  function TagUriOf(m: TagMap): (r: Result<string>)
    ensures r.Success? <==> Header in m && (m[Header] == Sgtin96.Name() || m[Header] == Sscc.Name())
    ensures r.Success? && m[Header] == Sgtin96.Name() ==>
      |r.value| >= 21 && r.value[..21] == "urn:epc:tag:sgtin-96:"
    ensures r.Success? && m[Header] == Sscc.Name() ==>
      |r.value| >= 20 && r.value[..20] == "urn:epc:tag:sscc-96:"
    ensures r.Success? && m[Header] == Sgtin96.Name() && Filter in m && CompanyPrefix in m && ItemReference in m
            && SerialNumber in m ==>
      r.value == "urn:epc:tag:sgtin-96:" + (m[Filter] + "." + m[CompanyPrefix] + "." + m[ItemReference] + "."
                                          + m[SerialNumber])
    ensures r.Success? && m[Header] == Sscc.Name() && Filter in m && CompanyPrefix in m && SerialReference in m ==>
      r.value == "urn:epc:tag:sscc-96:" + (m[Filter] + "." + m[CompanyPrefix] + "." + m[SerialReference])
  {
    var h :- HeaderOf(m);
    if h == Sgtin96.Name() then
      Success(SgtinTagUri(m))
    else if h == Sscc.Name() then
      Success(SsccTagUri(m))
    else Failure(NotSupported)
  }

  /** The SGTIN-96 tag URI of a map: filter, company prefix, item reference and serial. */
  function SgtinTagUri(m: TagMap): (u: string)
    ensures |u| >= 21 && u[..21] == "urn:epc:tag:sgtin-96:"
    ensures Filter in m && CompanyPrefix in m && ItemReference in m && SerialNumber in m ==>
      u == "urn:epc:tag:sgtin-96:" + (m[Filter] + "." + m[CompanyPrefix] + "." + m[ItemReference] + "." + m[SerialNumber])
  {
    Scheme("urn:epc:tag:sgtin-96:", Show(Get(m, Filter)) + "." + Show(Get(m, CompanyPrefix)) + "."
                                    + Show(Get(m, ItemReference)) + "." + Show(Get(m, SerialNumber)))
  }

  /** The SSCC-96 tag URI of a map: filter, company prefix and serial reference. */
  function SsccTagUri(m: TagMap): (u: string)
    ensures |u| >= 20 && u[..20] == "urn:epc:tag:sscc-96:"
    ensures Filter in m && CompanyPrefix in m && SerialReference in m ==>
      u == "urn:epc:tag:sscc-96:" + (m[Filter] + "." + m[CompanyPrefix] + "." + m[SerialReference])
  {
    Scheme("urn:epc:tag:sscc-96:", Show(Get(m, Filter)) + "." + Show(Get(m, CompanyPrefix)) + "."
                                   + Show(Get(m, SerialReference)))
  }

  /** createEPCTagURI_96(epcHex). */
  function TagUri96(hex: string): (r: Result<string>)
    ensures Parse(hex).Failure? ==> r == Failure(Parse(hex).error)
    ensures ParseFields(hex).Success? ==> r == RecordTagUri(ParseFields(hex).value)
  {
    var m :- Parse(hex);
    ParsedRecord(hex);
    RecordAccessors(ParseFields(hex).value);
    TagUriOf(m)
  }

  /** The company prefix and item reference of a map are text the number parsers read. */
  predicate NumericFields(m: TagMap) {
    (CompanyPrefix in m ==> NumericText(m[CompanyPrefix]))
    && (ItemReference in m ==> NumericText(m[ItemReference]))
  }

  /**
   * createSGTIN_96HexEPC(epc, serialNumber) once the image is decoded:
   * Integer.parseInt of filter and partition (null fails as not a number),
   * then the company prefix and getItemReference(map), encoded again with
   * the new serial. getItemReference answers null unless the map is an
   * SGTIN-96 map, and Integer.parseInt rejects that null as it rejects the
   * text "null", so only SGTIN-96 maps are reserialised.
   */
  function ReserialiseMap(m: TagMap, serial: string): (r: Result<string>)
    requires NumericFields(m) && NumericText(serial)
    ensures r.Success? ==> Header in m && m[Header] == Sgtin96.Name()
  {
    var f :- if Filter in m then ParseInt(m[Filter]) else Failure(MalformedNumber);
    var p :- if Partition in m then ParseInt(m[Partition]) else Failure(MalformedNumber);
    var ir :- ItemReferenceOf(m);
    if ir.None? then
      NullItemReference(f, p, Show(CompanyPrefixOf(m)), serial);
      Sgtin96Encoding(f, p, Show(CompanyPrefixOf(m)), Show(ir), serial)
    else Sgtin96Encoding(f, p, Show(CompanyPrefixOf(m)), Show(ir), serial)
  }

  /** Integer.parseInt rejects the null item reference of a map that is not SGTIN-96. */
  lemma {:induction false} NullItemReference(f: nat, p: int, cp: string, serial: string)
    requires NumericText(cp) && NumericText(serial)
    ensures Sgtin96Encoding(f, p, cp, "null", serial).Failure?
  {
    NullReferenceRejected(p, cp);
    assert Sgtin96Bits(f, p, cp, "null", serial).Failure?;
  }

  lemma {:induction false} NullReferenceRejected(p: int, cp: string)
    requires NumericText(cp)
    ensures CheckedReferences(p, cp, "null").Failure?
  {
    assert !IsDigit("null"[0]);
    assert ParseInt("null").Failure?;
  }

  /** Every map the decoder returns has numeric company prefix and item reference. */
  lemma {:induction false} ParsedNumeric(hex: string)
    requires Parse(hex).Success?
    ensures NumericFields(Parse(hex).value)
  {
    var d := ParseFields(hex).value;
    DecodeShape(HexToBits(hex).value);
    FieldsNumeric(d);
  }

  lemma {:induction false} FieldsNumeric(d: Fields)
    requires WellShaped(d) && AllDigits(d.companyPrefix)
    requires d.references.SgtinReferences? ==> AllDigits(d.references.itemReference)
    ensures NumericFields(AsMap(d))
  {
    AsMapShape(d);
  }

  /** createSGTIN_96HexEPC(epc, serialNumber). */
  function Reserialise(epc: string, serial: string): (r: Result<string>)
    requires NumericText(serial)
    ensures Parse(epc).Failure? ==> r == Failure(Parse(epc).error)
  {
    match Parse(epc)
    case Failure(e) => Failure(e)
    case Success(m) =>
      ParsedNumeric(epc);
      ReserialiseMap(m, serial)
  }

  method CreateSgtin96FromImage(epc: string, serialNumber: string) returns (r: Result<string>)
    requires NumericText(serialNumber)
    ensures r == Reserialise(epc, serialNumber)
  {
    var parsed := ParseHexString(epc);
    if parsed.Failure? {
      return Failure(parsed.error);
    }
    ParsedNumeric(epc);
    r := ReserialiseData(parsed.value, serialNumber);
  }

  /** The reserialising overload from the decoded map on. */
  method ReserialiseData(data: TagMap, serialNumber: string) returns (r: Result<string>)
    requires NumericFields(data) && NumericText(serialNumber)
    ensures r == ReserialiseMap(data, serialNumber)
  {
    if Filter !in data {
      return Failure(MalformedNumber);
    }
    var filter := ParseInt(data[Filter]);
    if filter.Failure? {
      return Failure(filter.error);
    }
    if Partition !in data {
      return Failure(MalformedNumber);
    }
    var partition := ParseInt(data[Partition]);
    if partition.Failure? {
      return Failure(partition.error);
    }
    var companyPrefix := CompanyPrefixOf(data);
    var itemReference := ItemReferenceOf(data);
    if itemReference.Failure? {
      return Failure(itemReference.error);
    }
    r := CreateSgtin96HexEpc(filter.value, partition.value, Show(companyPrefix), Show(itemReference.value), serialNumber);
  }
}
