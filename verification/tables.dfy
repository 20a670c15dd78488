/**
 * The codec's constant tables: the header byte of each tag encoding and the
 * partition tables that split the 44 (SGTIN) or 58 (SSCC) bits after the
 * partition value between the company prefix and the reference fields.
 * The Java class fills them once in init() and never changes them.
 */
module Tables {
  import opened Results
  import opened Text
  import opened BitStrings

  /** The tag encodings the header table knows. */
  datatype Encoding = Dod64 | Dod96 | Sgtin96 | Sscc | Gln96 | Grai96 | Giai96 | Gid96 | Sgtin198
  {
    /** The Java enum constant's name, which the decoder stores as the header. */
    function Name(): (r: string)
      ensures |r| >= 4
    {
      match this
      case Dod64 => "DOD_64"
      case Dod96 => "DOD_96"
      case Sgtin96 => "SGTIN_96"
      case Sscc => "SSCC"
      case Gln96 => "GLN_96"
      case Grai96 => "GRAI_96"
      case Giai96 => "GIAI_96"
      case Gid96 => "GID_96"
      case Sgtin198 => "SGTIN_198"
    }

    /** The header byte that announces this encoding. */
    function Header(): nat {
      match this
      case Dod64 => 206
      case Dod96 => 207
      case Sgtin96 => 48
      case Sscc => 49
      case Gln96 => 50
      case Grai96 => 51
      case Giai96 => 52
      case Gid96 => 53
      case Sgtin198 => 54
    }
  }

  /** headerEncodings.get(h): None where the Java map holds no entry. */
  function HeaderEncoding(h: nat): (r: Option<Encoding>)
    ensures r.Some? ==> r.value.Header() == h
  {
    if h == 206 then Some(Dod64)
    else if h == 207 then Some(Dod96)
    else if h == 54 then Some(Sgtin198)
    else if h == 48 then Some(Sgtin96)
    else if h == 49 then Some(Sscc)
    else if h == 50 then Some(Gln96)
    else if h == 51 then Some(Grai96)
    else if h == 52 then Some(Giai96)
    else if h == 53 then Some(Gid96)
    else None
  }

  /** The header table is a bijection between its nine bytes and the encodings. */
  lemma {:induction false} HeaderTable(h: nat, e: Encoding)
    ensures HeaderEncoding(h) == Some(e) <==> e.Header() == h
    ensures HeaderEncoding(h).None? <==> h !in {206, 207, 48, 49, 50, 51, 52, 53, 54}
  {
  }

  /** Distinct encodings carry distinct names, so the stored header identifies the encoding. */
  lemma {:induction false} NamesDistinct(e: Encoding, f: Encoding)
    ensures e.Name() == f.Name() <==> e == f
  {
    if e != f {
      assert e.Name() != f.Name() by {
        var i := if |e.Name()| != |f.Name()| then 0 else DifferAt(e, f);
        assert |e.Name()| != |f.Name()| || e.Name()[i] != f.Name()[i];
      }
    }
  }

  /** A position below both lengths where two names of equal length differ. */
  function DifferAt(e: Encoding, f: Encoding): (i: nat)
    requires e != f && |e.Name()| == |f.Name()|
    ensures i < |e.Name()| && e.Name()[i] != f.Name()[i]
  {
    if e.Name()[0] != f.Name()[0] then 0
    else if e.Name()[1] != f.Name()[1] then 1
    else 4
  }

  /** The partition values the three partition tables hold entries for. */
  predicate IsPartition(p: int) {
    0 <= p <= 6
  }

  /** giaiPartitionTableCompPrefix: bits of the company prefix. */
  function CompanyPrefixBits(p: int): nat
    requires IsPartition(p)
  {
    [40, 37, 34, 30, 27, 24, 20][p]
  }

  /** giaiPartitionTableIndividualAssetRef: bits of company prefix plus item reference, plus 38. */
  function AssetReferenceBits(p: int): nat
    requires IsPartition(p)
  {
    [42, 45, 48, 52, 55, 58, 62][p]
  }

  /** giaiPartitionTableSerialReference: bits of the SSCC serial reference. */
  function SerialReferenceBits(p: int): nat
    requires IsPartition(p)
  {
    [18, 21, 24, 28, 31, 34, 38][p]
  }

  /** The width the SGTIN encoders and the decoder give the item reference. */
  function ItemReferenceBits(p: int): (r: nat)
    requires IsPartition(p)
    ensures CompanyPrefixBits(p) + r == 44
  {
    AssetReferenceBits(p) - 38
  }

  /**
   * The partition tables lay out 44 bits of company prefix and item
   * reference (SGTIN) and 58 bits of company prefix and serial reference
   * (SSCC); a larger partition value moves bits from the prefix to the
   * reference.
   */
  lemma {:induction false} PartitionLayout(p: int)
    requires IsPartition(p)
    ensures CompanyPrefixBits(p) + SerialReferenceBits(p) == 58
    ensures 20 <= CompanyPrefixBits(p) <= 40 && 4 <= ItemReferenceBits(p) <= 24
    ensures p < 6 ==> CompanyPrefixBits(p + 1) < CompanyPrefixBits(p)
    ensures p < 6 ==> SerialReferenceBits(p) < SerialReferenceBits(p + 1)
  {
  }

  /**
   * Every decimal field fits its binary field: 12 - p company prefix
   * digits, p + 1 item reference digits and p + 5 serial reference digits.
   */
  lemma {:induction false} DigitCapacity(p: int)
    requires IsPartition(p)
    ensures Pow10(12 - p) <= Pow2(CompanyPrefixBits(p))
    ensures Pow10(p + 1) <= Pow2(ItemReferenceBits(p))
    ensures Pow10(p + 5) <= Pow2(SerialReferenceBits(p))
  {
    Powers();
    Pow2Add(20, 20);
    Pow2Add(20, 14);
    Pow2Add(20, 17);
    Pow2Add(20, 18);
    Pow2Add(20, 4);
    Pow2Add(20, 7);
    Pow2Add(20, 10);
    Pow2Add(14, 10);
    Pow2Add(14, 3);
    Pow2Add(10, 4);
    Pow2Add(10, 7);
    Pow2Add(10, 10);
  }

  lemma Powers()
    ensures Pow2(3) == 8 && Pow2(4) == 16 && Pow2(7) == 128
    ensures Pow2(10) == 1024 && Pow2(14) == 16384 && Pow2(17) == 131072
    ensures Pow2(18) == 262144 && Pow2(20) == 1048576
    ensures Pow10(1) == 10 && Pow10(2) == 100 && Pow10(3) == 1000 && Pow10(4) == 10000
    ensures Pow10(5) == 100000 && Pow10(6) == 1000000 && Pow10(7) == 10000000
    ensures Pow10(8) == 100000000 && Pow10(9) == 1000000000 && Pow10(10) == 10000000000
    ensures Pow10(11) == 100000000000 && Pow10(12) == 1000000000000
  {
    Pow2Add(3, 1);
    Pow2Add(4, 3);
    Pow2Add(7, 3);
    Pow2Add(10, 4);
    Pow2Add(14, 3);
    Pow2Add(17, 1);
    Pow2Add(18, 2);
    Pow10Add(3, 3);
    Pow10Add(6, 3);
    Pow10Add(9, 3);
  }

  lemma {:induction false} Pow10Add(a: nat, b: nat)
    ensures Pow10(a + b) == Pow10(a) * Pow10(b)
  {
    if a > 0 {
      Pow10Add(a - 1, b);
    }
  }
}
