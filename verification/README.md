# EPCTools codec, modelled in Dafny

EPCTools converts between the hexadecimal image of an EPC (Electronic
Product Code) RFID tag and its fields. It covers three encodings:

- SGTIN-96, a serialised GTIN with a numeric serial;
- SGTIN-198, a serialised GTIN with an alphanumeric serial;
- SSCC-96, a serial shipping container code.

The core is a single Java class. This project models that class's codec:

- **Constant tables.** The header bytes of the nine encodings, and the
  per-partition bit widths of the company prefix, the serial reference and
  the individual asset reference.
- **String helpers.** Zero-filling on the left and on the right, hex to bit
  strings and back, the bit-string value `binStringToLong`, and packing and
  unpacking 7-bit ASCII.
- **Encoders.** `createSGTIN_96HexEPC`, `createSGTIN_198HexEPC` and
  `createSSCCHexEPC`, together with their GTIN, company-prefix and
  reserialising overloads.
- **Decoder.** `parseHexString`, which turns an image into a map from tag
  data to text.
- **Accessors.** `getGTIN`, `getSSCC`, `getCompanyPrefix`,
  `getItemReference` and `getSerialNumber`, on maps and on images.
- **Header tests.** `getEncoding`, `isSGTIN96`, `isSGTIN198` and `isSSCC`.
- **URI builders.** The two 96-bit URI builders.
- **GS1 checks.** The check digit (`getChecksum`) and `isValidGTIN`.

## How the model is laid out

The modules follow the structure of the class:

| module | contents |
|---|---|
| `Results` | error kinds, `Result` and `Option` |
| `Text` | decimal text and zero-filling |
| `BitStrings` | bit strings and hex |
| `SevenBit` | 7-bit ASCII packing |
| `Tables` | headers and partitions |
| `Checksum` | GS1 check digit |
| `Encoder` | the encoders |
| `Decoder` | `parseHexString` |
| `Facade` | accessors, header tests, URIs, reserialising |
| `RoundTrip` | encoder and decoder properties |
| `Accessors` | accessors applied to encoded images |

The class keeps no state of its own: its tables are filled once and never
changed. So the model is pure functions, not a class.

Each Java loop becomes a `method` with a `while` loop, and that method is
proved equal to a specification function. Examples:

- `FillLeftWithZeros` against `PadLeft`;
- `HexToBinaryString` against `HexToBits`;
- `BinStringToLong` against `BitsToNat`;
- the encoders' chunk loops against `StrictImage`, `LenientHex` and
  `LeadingImage`;
- `ParseHexString` against `Parse`;
- `GetChecksum` against `CheckDigit`;
- `IsValidGtin` against `ValidGtin`.

A Java exception becomes a `Failure` carrying an error kind. A `null`
returned by `HashMap.get` becomes `None`. A `null` concatenated into a string
becomes the text `"null"`, as Java's `+` produces.

Behaviour of the source that the model keeps, and that its lemmas state:

- **Integer.parseInt on the company prefix and item reference.** Both go
  through `Integer.parseInt`, so a value above 2147483647 is rejected as
  malformed even where its partition's field would hold it.
- **The SGTIN-96 serial limit.** The guard rejects serials above 2^38
  (274877906944). A serial of exactly 2^38 passes the guard and needs 39
  bits. The image then has 97 bits, and the chunk loop's last `substring`
  fails. So the encoder succeeds exactly when the serial is below 2^38
  (`RoundTrip.Sgtin96Accepts`).
- **SGTIN-198 serials.** The image has 198 bits, which is not a multiple of
  four. The last hex digit carries two bits, and the decoder widens it to
  four. As a result, the twentieth serial character comes back with its two
  low bits cleared.
  - Characters with codes up to 9 are dropped on reading.
  - A serial shorter than 20 characters comes back zero-filled on the left
    to 20 characters (`RoundTrip.Sgtin198ShortSerial`,
    `RoundTrip.Sgtin198FullSerial`).
- **SSCC-96.** The encoder checks neither the company prefix width nor the
  serial reference width against the partition. It keeps the first 96 bits
  of whatever it built (`Encoder.LeadingHex`), so only values that fit read
  back unchanged (`RoundTrip.SsccRoundTrip`).
- **Reserved headers.** For the six reserved encodings (DoD-64, DoD-96,
  GLN-96, GRAI-96, GIAI-96, GID-96) the decoder returns the header, filter, partition, company
  prefix and item reference, and nothing after them.
- **Java's remainder.** The check digit is `(1000 - sum) % 10` with Java's
  `%`, which truncates toward zero. It is modelled by `Checksum.JavaRem`.
  It can be negative once the weighted sum exceeds 1000; for inputs of at most
  55 digits it lies in 0..9 (`Checksum.CheckDigitRange`).

## Model

| member | source | states |
|---|---|---|
| Text.FillLeftWithZeros | EPCTools/src/main/java/com/jensui/epctools/EPCTools.java:83-88 | the loop's result is the input with zeros prepended until it has `digits` characters, unchanged when already that long |
| Text.PadLeftShape | EPCTools/src/main/java/com/jensui/epctools/EPCTools.java:83-88 | the left-filled text ends with the original and everything before it is `'0'` |
| Text.FillRightWithZeros | EPCTools/src/main/java/com/jensui/epctools/EPCTools.java:90-95 | the loop's result is the input with zeros appended until it has `digits` characters |
| Text.PadRightShape | EPCTools/src/main/java/com/jensui/epctools/EPCTools.java:90-95 | the right-filled text starts with the original and everything after it is `'0'` |
| Text.NatToDecimal | EPCTools/src/main/java/com/jensui/epctools/EPCTools.java:396 | `Long.toString` of a non-negative value is nonempty digit text whose decimal value is that value, with no leading zero unless the value is 0 |
| Text.DecimalValueZeros | EPCTools/src/main/java/com/jensui/epctools/EPCTools.java:83-88 | zeros added on the left keep the text digits-only and do not change its decimal value |
| Text.CanonicalDecimal | EPCTools/src/main/java/com/jensui/epctools/EPCTools.java:400-403 | `Long.toString` of a digit text's value, zero-filled back to the text's length, is the text itself |
| Text.ParsePadded | EPCTools/src/main/java/com/jensui/epctools/EPCTools.java:282-289 | `Integer.parseInt` of a zero-filled `Long.toString` of a value up to 2147483647 gives back the value |
| Text.DecimalLength | EPCTools/src/main/java/com/jensui/epctools/EPCTools.java:400-403 | a value's decimal text has at most `k` digits exactly when the value is below 10^k |
| BitStrings.BinStringToLong | EPCTools/src/main/java/com/jensui/epctools/EPCTools.java:453-466 | the loop from the last character computes the bit string's value, most significant bit first |
| BitStrings.PowerOfTwoOrZero | EPCTools/src/main/java/com/jensui/epctools/EPCTools.java:462 | the power the loop adds is 2^z for a one bit and 0 for any other character |
| BitStrings.NatToBitsValue | EPCTools/src/main/java/com/jensui/epctools/EPCTools.java:191-193 | `Integer.toBinaryString` of a value reads back as that value |
| BitStrings.NatToBitsLength | EPCTools/src/main/java/com/jensui/epctools/EPCTools.java:195 | a value's binary text fits in `w` bits exactly when the value is below 2^w, which is the encoders' width check |
| BitStrings.ZeroPaddedValue | EPCTools/src/main/java/com/jensui/epctools/EPCTools.java:198 | zero-filling a bit string on the left keeps it a bit string and keeps its value |
| BitStrings.Field | EPCTools/src/main/java/com/jensui/epctools/EPCTools.java:198 | a value below 2^w, written in binary and zero-filled to `w`, is a `w`-bit field that reads back as the value |
| BitStrings.BitsInjective | EPCTools/src/main/java/com/jensui/epctools/EPCTools.java:453-466 | two bit strings of one length with one value are equal |
| BitStrings.Nibble | EPCTools/src/main/java/com/jensui/epctools/EPCTools.java:100 | each hex digit becomes exactly four bits whose value is the digit's value |
| BitStrings.HexToBinaryString | EPCTools/src/main/java/com/jensui/epctools/EPCTools.java:97-103 | the loop expands a hex string digit by digit, or fails on the first character that is not a hex digit |
| BitStrings.ExpandIsBits | EPCTools/src/main/java/com/jensui/epctools/EPCTools.java:97-103 | the expansion of hex text is a bit string |
| BitStrings.ExpandAt | EPCTools/src/main/java/com/jensui/epctools/EPCTools.java:97-103 | the k-th group of four bits in the expansion is the k-th hex digit's nibble |
| BitStrings.LeadingByte | EPCTools/src/main/java/com/jensui/epctools/EPCTools.java:360-363 | the first eight bits of an expanded image are the value of its first two hex digits |
| BitStrings.BinaryStringToHex | EPCTools/src/main/java/com/jensui/epctools/EPCTools.java:105-107 | `Long.toHexString` of a bit string's value; for a chunk of at most four bits it is that chunk's single hex digit |
| BitStrings.HexImageRoundTrip | EPCTools/src/main/java/com/jensui/epctools/EPCTools.java:97-107 | expanding the upper-case hex image of a bit string gives the bit string back, its short last chunk zero-filled to four bits |
| BitStrings.WidenedAligned | EPCTools/src/main/java/com/jensui/epctools/EPCTools.java:206-211 | a bit string whose length is a multiple of four comes back from its image unchanged |
| BitStrings.WidenedTail | EPCTools/src/main/java/com/jensui/epctools/EPCTools.java:237-242 | a final chunk of one to three bits comes back zero-filled on the left to four bits |
| BitStrings.ImageDigits | EPCTools/src/main/java/com/jensui/epctools/EPCTools.java:211 | every character of an upper-cased image is `0-9` or `A-F` |
| SevenBit.Septet | EPCTools/src/main/java/com/jensui/epctools/EPCTools.java:250 | each ASCII character becomes seven bits whose value is its code |
| SevenBit.ToBinaryString | EPCTools/src/main/java/com/jensui/epctools/EPCTools.java:245-253 | the loop packs the text seven bits per character, in order |
| SevenBit.Pack7Concat | EPCTools/src/main/java/com/jensui/epctools/EPCTools.java:245-253 | packing a concatenation is concatenating the packings |
| SevenBit.Glyph | EPCTools/src/main/java/com/jensui/epctools/EPCTools.java:443-447 | a group of at most seven bits yields one character, with the group's value as its code, exactly when the value is above 9, and nothing otherwise |
| SevenBit.BinStringTo7BitAscii | EPCTools/src/main/java/com/jensui/epctools/EPCTools.java:439-451 | the loop reads seven-bit groups, a shorter last group included, and keeps the characters above code 9 |
| SevenBit.DropControl | EPCTools/src/main/java/com/jensui/epctools/EPCTools.java:445 | the kept text is no longer than the original and holds only codes above 9 |
| SevenBit.Unpack7Pack7 | EPCTools/src/main/java/com/jensui/epctools/EPCTools.java:439-451 | unpacking packed ASCII gives the text back without its characters of code 0 to 9 |
| SevenBit.Unpack7Concat | EPCTools/src/main/java/com/jensui/epctools/EPCTools.java:439-451 | after a whole number of seven-bit groups, unpacking splits over concatenation |
| SevenBit.ShortGroupDropped | EPCTools/src/main/java/com/jensui/epctools/EPCTools.java:441-447 | a trailing group of one to three bits is always dropped |
| SevenBit.Pack7Nuls | EPCTools/src/main/java/com/jensui/epctools/EPCTools.java:234 | zero bits appended after the serial are NUL characters packed |
| SevenBit.NulsDropped | EPCTools/src/main/java/com/jensui/epctools/EPCTools.java:445 | NUL characters are dropped on reading |
| SevenBit.ClearLow2 | EPCTools/src/main/java/com/jensui/epctools/EPCTools.java:237-242 | the character with its two low bits cleared is ASCII, a multiple of four, and at most three below the original |
| SevenBit.SeptetWidened | EPCTools/src/main/java/com/jensui/epctools/EPCTools.java:237-242 | a septet whose last two bits are replaced by `00` is the septet of the character with its two low bits cleared, and those two bits are the code modulo 4 |
| Tables.HeaderTable | EPCTools/src/main/java/com/jensui/epctools/EPCTools.java:30-39 | the header table maps a byte to an encoding exactly when that encoding's header is the byte, and it has no entry outside the nine header bytes |
| Tables.NamesDistinct | EPCTools/src/main/java/com/jensui/epctools/EPCTools.java:78-81 | two encodings have the same name exactly when they are the same encoding |
| Tables.ItemReferenceBits | EPCTools/src/main/java/com/jensui/epctools/EPCTools.java:199 | the item reference width (asset reference width minus 38) and the company prefix width add up to 44 bits |
| Tables.PartitionLayout | EPCTools/src/main/java/com/jensui/epctools/EPCTools.java:41-66 | company prefix and serial reference widths add up to 58 bits; the prefix narrows and the serial reference widens as the partition grows; prefix 20..40 bits, item reference 4..24 bits |
| Tables.DigitCapacity | EPCTools/src/main/java/com/jensui/epctools/EPCTools.java:41-66 | each partition's fields hold every value of their decimal widths: 12-p digits of prefix, p+1 of item reference, p+5 of serial reference |
| Checksum.JavaRem | EPCTools/src/main/java/com/jensui/epctools/EPCTools.java:479 | Java's `%` lies strictly between -b and b and agrees with the mathematical remainder on non-negative operands |
| Checksum.CheckDigit | EPCTools/src/main/java/com/jensui/epctools/EPCTools.java:468-486 | the check digit exists exactly when every character is a digit, and lies strictly between -10 and 10 |
| Checksum.GetChecksum | EPCTools/src/main/java/com/jensui/epctools/EPCTools.java:468-486 | the loop, with weights 3,1,3,... from the right, computes the check digit or fails on a non-digit |
| Checksum.WeightedSumBound | EPCTools/src/main/java/com/jensui/epctools/EPCTools.java:472-477 | the weighted sum is at most 27 per odd-weighted position and 9 per even one |
| Checksum.CheckDigitRange | EPCTools/src/main/java/com/jensui/epctools/EPCTools.java:468-486 | for up to 55 digits the check digit is a decimal digit and completes the weighted sum to a multiple of 10 |
| Checksum.IsValidGtin | EPCTools/src/main/java/com/jensui/epctools/EPCTools.java:488-509 | the loop answers whether the text is nonempty digits whose last digit equals `(1000 - sum of the rest) % 10` |
| Checksum.ValidGtinAgreesWithChecksum | EPCTools/src/main/java/com/jensui/epctools/EPCTools.java:488-509 | a text is a valid GTIN exactly when it is digits and its last digit is the text of `getChecksum` of the rest |
| Checksum.AppendCheckDigit | EPCTools/src/main/java/com/jensui/epctools/EPCTools.java:468-509 | appending the check digit to up to 55 digits gives a valid GTIN |
| Checksum.AppendedDigit | EPCTools/src/main/java/com/jensui/epctools/EPCTools.java:488-509 | a body followed by one digit is valid exactly when that digit is the body's check value |
| Checksum.GtinExamples | EPCTools/src/test/java/com/jensui/epctools/EPCToolsTest.java:40-44 | `00614141453245` is a valid GTIN and `00614141453246` is not |
| Encoder.ValueBits | EPCTools/src/main/java/com/jensui/epctools/EPCTools.java:191-193 | a zero-filled binary field is a bit string of the requested width (or longer when the value does not fit) with the value written |
| Encoder.CheckedReferences | EPCTools/src/main/java/com/jensui/epctools/EPCTools.java:194-203 | when the partition, prefix and reference checks pass, the partition exists and both values fit their partition's widths |
| Encoder.StrictHex | EPCTools/src/main/java/com/jensui/epctools/EPCTools.java:206-211 | the four-bit chunk loop gives the upper-case image of a bit string whose length is a multiple of four, and fails on a shorter last chunk |
| Encoder.LenientHex | EPCTools/src/main/java/com/jensui/epctools/EPCTools.java:237-242 | the loop that shortens the last chunk gives the upper-case image of any bit string |
| Encoder.LeadingHex | EPCTools/src/main/java/com/jensui/epctools/EPCTools.java:274-279 | the 96-bit loop gives the image of the first 96 bits, and fails on a shorter string |
| Encoder.CreateSgtin96HexEpc | EPCTools/src/main/java/com/jensui/epctools/EPCTools.java:180-212 | createSGTIN_96HexEPC returns the SGTIN-96 encoding of its arguments or the first check that fails |
| Encoder.CreateSgtin198HexEpc | EPCTools/src/main/java/com/jensui/epctools/EPCTools.java:214-243 | createSGTIN_198HexEPC returns the SGTIN-198 encoding of its arguments or the first check that fails |
| Encoder.CreateSsccHexEpc | EPCTools/src/main/java/com/jensui/epctools/EPCTools.java:255-280 | createSSCCHexEPC returns the SSCC-96 encoding of its arguments or the first failure |
| Encoder.CreateSgtin96FromGtin | EPCTools/src/main/java/com/jensui/epctools/EPCTools.java:339-341 | the GTIN overload encodes at partition 6 with prefix `gtin[1..7]` and reference `gtin[0] + gtin[7..13]` |
| Encoder.CreateSgtin198FromGtin | EPCTools/src/main/java/com/jensui/epctools/EPCTools.java:343-345 | the same split for SGTIN-198 |
| Encoder.PrefixPartition | EPCTools/src/main/java/com/jensui/epctools/EPCTools.java:348 | a prefix of 6 to 12 digits selects the partition whose decimal prefix width is its length; a shorter one selects 6; a longer one selects no partition |
| Encoder.CreateSsccFromPrefix | EPCTools/src/main/java/com/jensui/epctools/EPCTools.java:347-358 | the company-prefix overload encodes SSCC-96 at the partition its prefix length selects |
| RoundTrip.SerialField | EPCTools/src/main/java/com/jensui/epctools/EPCTools.java:182 | the SGTIN-96 serial limit 274877906944 is 2^38 |
| RoundTrip.ReferenceChecks | EPCTools/src/main/java/com/jensui/epctools/EPCTools.java:194-203 | each failing check gives its own error in source order, and the checks pass exactly when the partition exists and both parsed values fit their widths, yielding those values |
| RoundTrip.DigitReferences | EPCTools/src/main/java/com/jensui/epctools/EPCTools.java:194-203 | a prefix of 12-p digits (within Integer range) and a reference of p+1 digits always pass the width checks |
| RoundTrip.SgtinLayout | EPCTools/src/main/java/com/jensui/epctools/EPCTools.java:191-205 | the SGTIN bit string is 58 bits of header, filter, partition, prefix and reference, each slice reading back its value, followed by the serial |
| RoundTrip.Sgtin96Rejects | EPCTools/src/main/java/com/jensui/epctools/EPCTools.java:180-203 | a non-numeric serial, a serial above 2^38, a filter above 7 and a failing reference check each give their own error, in that order |
| RoundTrip.Sgtin96Image | EPCTools/src/main/java/com/jensui/epctools/EPCTools.java:191-211 | past the checks, the image is the chunked 58-bit head followed by the 38-bit serial |
| RoundTrip.Sgtin96Accepts | EPCTools/src/main/java/com/jensui/epctools/EPCTools.java:180-212 | SGTIN-96 encoding succeeds exactly when the serial is below 2^38, the filter at most 7 and the reference checks pass; a serial of exactly 2^38 fails on the chunk loop |
| RoundTrip.Sgtin96RoundTrip | EPCTools/src/main/java/com/jensui/epctools/EPCTools.java:180-212 | every SGTIN-96 image has 24 hex digits, starts with `30`, and decodes to the filter, partition, parsed prefix and reference, and the serial zero-filled to 12 digits |
| RoundTrip.Sgtin96TextFields | EPCTools/src/main/java/com/jensui/epctools/EPCTools.java:393-411 | written at the decoder's widths, prefix, reference and a 12-digit serial decode verbatim |
| RoundTrip.Sgtin96TextRoundTrip | EPCTools/src/main/java/com/jensui/epctools/EPCTools.java:386-437 | `parseHexString` of such an image is exactly the map of the six SGTIN-96 fields that were written |
| RoundTrip.CanonicalFields | EPCTools/src/main/java/com/jensui/epctools/EPCTools.java:400-408 | digit texts at the decoder's widths are exactly what the decoder writes for their values |
| RoundTrip.Sgtin198Outcome | EPCTools/src/main/java/com/jensui/epctools/EPCTools.java:214-233 | a serial over 20 characters, a filter above 7 and a failing reference check each give their own error, and encoding succeeds exactly when none applies |
| RoundTrip.FilledField | EPCTools/src/main/java/com/jensui/epctools/EPCTools.java:234 | the serial's bits zero-filled to 140 are the packing of the serial followed by NULs up to 20 characters |
| RoundTrip.WidenedSerial | EPCTools/src/main/java/com/jensui/epctools/EPCTools.java:430-431 | the serial field as the decoder sees it, with its last two bits widened to four, reads back as `Sgtin198Serial` of the serial |
| RoundTrip.ShortSerialKept | EPCTools/src/main/java/com/jensui/epctools/EPCTools.java:234 | a serial shorter than 20 characters ends in a NUL, so clearing the last character's low bits loses nothing |
| RoundTrip.Sgtin198RoundTrip | EPCTools/src/main/java/com/jensui/epctools/EPCTools.java:214-243 | every SGTIN-198 image has 50 hex digits, starts with `36`, and decodes to the filter, partition, parsed prefix and reference, and the serial as `Sgtin198Serial` describes |
| RoundTrip.Sgtin198FullSerial | EPCTools/src/main/java/com/jensui/epctools/EPCTools.java:430-431 | a 20-character serial comes back with its last character's two low bits cleared, so unchanged exactly when that code is a multiple of four |
| RoundTrip.Sgtin198ShortSerial | EPCTools/src/main/java/com/jensui/epctools/EPCTools.java:430-431 | a shorter serial comes back zero-filled on the left to 20 characters |
| RoundTrip.Sgtin198TextFields | EPCTools/src/main/java/com/jensui/epctools/EPCTools.java:393-431 | a 20-character serial whose last code is a multiple of four, with prefix and reference at the decoder's widths, decodes verbatim |
| RoundTrip.Sgtin198TextRoundTrip | EPCTools/src/main/java/com/jensui/epctools/EPCTools.java:386-437 | `parseHexString` of such an image is exactly the map of the six SGTIN-198 fields that were written |
| RoundTrip.Sgtin198Example | EPCTools/src/test/java/com/jensui/epctools/EPCToolsTest.java:133-142 | encoding filter 1, partition 6, `030430`, `0058045`, `12345abcABC012345678` and parsing the image gives those fields back |
| RoundTrip.SsccOutcome | EPCTools/src/main/java/com/jensui/epctools/EPCTools.java:255-271 | a filter above 7, a missing partition, an unparsable prefix and an unparsable serial reference each fail, and SSCC encoding succeeds exactly when none applies |
| RoundTrip.UnallocatedBits | EPCTools/src/main/java/com/jensui/epctools/EPCTools.java:271 | the unallocated field is 24 zero bits |
| RoundTrip.SsccEncoded | EPCTools/src/main/java/com/jensui/epctools/EPCTools.java:255-280 | the SSCC image is the image of the first 96 bits of header, filter, partition, prefix, serial reference and unallocated bits |
| RoundTrip.SsccImageShape | EPCTools/src/main/java/com/jensui/epctools/EPCTools.java:274-279 | every SSCC image has 24 hex digits and starts with `31` |
| RoundTrip.SsccRoundTrip | EPCTools/src/main/java/com/jensui/epctools/EPCTools.java:255-280 | an SSCC image decodes to the filter, partition, prefix and serial reference that were written, whenever both values fit their partition's widths |
| Decoder.DecimalField | EPCTools/src/main/java/com/jensui/epctools/EPCTools.java:402-403 | a decoded numeric field is digit text at least as long as its decimal width |
| Decoder.ParseHexString | EPCTools/src/main/java/com/jensui/epctools/EPCTools.java:386-437 | `parseHexString` returns the map of the image's fields or the first failure |
| Decoder.ParseBits | EPCTools/src/main/java/com/jensui/epctools/EPCTools.java:393-436 | reading the fields off a bit string, offset by offset, gives the map the field decoding describes |
| Decoder.ReadReferences | EPCTools/src/main/java/com/jensui/epctools/EPCTools.java:404-431 | the part after the company prefix adds item reference, serial, serial reference and unallocated fields as the header demands |
| Decoder.ReadItemReference | EPCTools/src/main/java/com/jensui/epctools/EPCTools.java:404-408 | the item reference is read at its partition's width and zero-filled to 13-(12-p) digits, or the substring fails |
| Decoder.ReadSerial | EPCTools/src/main/java/com/jensui/epctools/EPCTools.java:409-431 | SGTIN-96 reads a 12-digit serial, SSCC a serial reference and the unallocated rest, SGTIN-198 20 unpacked characters; reserved headers add nothing |
| Decoder.ReadSerialReference | EPCTools/src/main/java/com/jensui/epctools/EPCTools.java:412-417 | the serial reference is read at its partition's width and zero-filled to 17-(12-p) digits, followed by the unallocated rest |
| Decoder.DecodeFailures | EPCTools/src/main/java/com/jensui/epctools/EPCTools.java:386-437 | decoding fails on fewer than 8 bits, on an unknown header, on partition 7, and on an image shorter than 58 bits (72 for SSCC), and succeeds on every other |
| Decoder.DecodeShape | EPCTools/src/main/java/com/jensui/epctools/EPCTools.java:393-417 | a decoded record's header, filter and partition are the image's bits, and its prefix, reference and serial reference are digit texts at least as wide as the partition says |
| Decoder.AsMapShape | EPCTools/src/main/java/com/jensui/epctools/EPCTools.java:393-431 | the map holds exactly the fields of its encoding, each with the record's value |
| Decoder.AsMapInjective | EPCTools/src/main/java/com/jensui/epctools/EPCTools.java:393-431 | two well-shaped records with the same map are the same record |
| Facade.Assemble | EPCTools/src/main/java/com/jensui/epctools/EPCTools.java:123-130 | the GTIN text is the reference's first digit, the prefix, the reference's rest and the check digit, and is a valid GTIN; missing or empty references fail |
| Facade.SerialNumberOf | EPCTools/src/main/java/com/jensui/epctools/EPCTools.java:109-117 | answers exactly when the map has a header: an SGTIN map's serial number and an SSCC map's serial reference (null exactly when that entry is missing), and `""` for every other header |
| Facade.CompanyPrefixOf | EPCTools/src/main/java/com/jensui/epctools/EPCTools.java:119-121 | the map's company prefix entry, null exactly when the map has none |
| Facade.ItemReferenceOf | EPCTools/src/main/java/com/jensui/epctools/EPCTools.java:157-163 | answers exactly when the map has a header: an SGTIN-96 map's item reference (null exactly when it is missing), and null for every other header |
| Facade.GtinOf | EPCTools/src/main/java/com/jensui/epctools/EPCTools.java:123-130 | no header fails and a non-SGTIN header answers null; an SGTIN map answers exactly when its item reference is nonempty digit text and its company prefix is digit text, and the GTIN is the reference's first digit, the prefix and the reference's rest, completed (up to 55 digits) by the one digit that makes a valid GTIN |
| Facade.SsccOf | EPCTools/src/main/java/com/jensui/epctools/EPCTools.java:169-178 | no header fails and a non-SSCC header answers null; an SSCC map answers exactly when its serial reference is nonempty digit text and its company prefix is digit text, and the SSCC is the reference's first digit, the prefix and the reference's rest, completed (up to 55 digits) by the one digit that makes a valid GTIN |
| Facade.GetGtin | EPCTools/src/main/java/com/jensui/epctools/EPCTools.java:132-140 | an image the decoder rejects fails with the decoder's error; a readable SGTIN image always answers the GTIN assembled from its decoded item reference and company prefix with its check digit, every other readable image null |
| Facade.GetSscc | EPCTools/src/main/java/com/jensui/epctools/EPCTools.java:165-167 | an image the decoder rejects fails with the decoder's error; a readable SSCC image always answers the SSCC assembled from its decoded serial reference and company prefix with its check digit, every other readable image null |
| Facade.GetCompanyPrefix | EPCTools/src/main/java/com/jensui/epctools/EPCTools.java:142-145 | answers exactly when the image decodes, and answers the decoded company prefix |
| Facade.GetItemReference | EPCTools/src/main/java/com/jensui/epctools/EPCTools.java:147-150 | answers exactly when the image decodes: the decoded item reference of every SGTIN and reserved encoding, null for SSCC |
| Facade.GetSerialNumber | EPCTools/src/main/java/com/jensui/epctools/EPCTools.java:152-155 | an image the decoder rejects fails with the decoder's error; otherwise the decoded SGTIN serial, the SSCC serial reference, or `""` for the reserved encodings |
| Facade.EncodingOfHeaderByte | EPCTools/src/main/java/com/jensui/epctools/EPCTools.java:360-363 | `getEncoding` fails on a non-hex image and on one shorter than two digits, and otherwise looks up the byte of the first two hex digits |
| Facade.EncodingAgreesWithDecoder | EPCTools/src/main/java/com/jensui/epctools/EPCTools.java:360-363 | on every image the decoder accepts, `getEncoding` names the decoded encoding |
| Facade.HeaderPredicates | EPCTools/src/main/java/com/jensui/epctools/EPCTools.java:365-378 | the three header tests answer exactly on hex images of two digits or more, and answer true exactly when the image starts with `30`, `36` or `31` |
| Facade.PredicatesOfEncoding | EPCTools/src/main/java/com/jensui/epctools/EPCTools.java:365-378 | the header tests agree with `getEncoding` |
| Facade.PredicatesAgreeWithDecoder | EPCTools/src/main/java/com/jensui/epctools/EPCTools.java:365-378 | the header tests agree with the encoding the decoder reads |
| Facade.Sgtin96HeaderExample | EPCTools/src/test/java/com/jensui/epctools/EPCToolsTest.java:46-49 | `30381D5D419C238000000001` is an SGTIN-96 image |
| Facade.PureIdentityUriOf | EPCTools/src/main/java/com/jensui/epctools/EPCTools.java:291-300 | a URI exists exactly for SGTIN-96 and SSCC maps: `urn:epc:id:sgtin:` followed by prefix, item reference and serial joined by dots, or `urn:epc:id:sscc:` followed by prefix and serial reference |
| Facade.PureIdentityUri96 | EPCTools/src/main/java/com/jensui/epctools/EPCTools.java:291-300 | an image the decoder rejects fails with the decoder's error; on a readable image it is the identity URI of the decoded fields for SGTIN-96 and SSCC and fails as not supported for every other encoding |
| Facade.TagUriOf | EPCTools/src/main/java/com/jensui/epctools/EPCTools.java:314-323 | a URI exists exactly for SGTIN-96 and SSCC maps: `urn:epc:tag:sgtin-96:` followed by filter, prefix, item reference and serial joined by dots, or `urn:epc:tag:sscc-96:` followed by filter, prefix and serial reference |
| Facade.TagUri96 | EPCTools/src/main/java/com/jensui/epctools/EPCTools.java:314-323 | an image the decoder rejects fails with the decoder's error; on a readable image it is the tag URI of the decoded fields for SGTIN-96 and SSCC and fails as not supported for every other encoding |
| Facade.RecordGtin | EPCTools/src/main/java/com/jensui/epctools/EPCTools.java:123-130 | on the map of any decoded record, an SGTIN record always has a GTIN and an SSCC record always has an SSCC, assembled from its reference and prefix; every other record answers null to both |
| Facade.RecordAccessors | EPCTools/src/main/java/com/jensui/epctools/EPCTools.java:109-163 | on the map of any decoded record, the prefix, item reference, serial and both URIs are the record's own fields |
| Facade.ReserialiseMap | EPCTools/src/main/java/com/jensui/epctools/EPCTools.java:282-289 | only an SGTIN-96 map can be reserialised |
| Facade.NullItemReference | EPCTools/src/main/java/com/jensui/epctools/EPCTools.java:286-288 | the null item reference of a non-SGTIN-96 map makes the encoder fail |
| Facade.NullReferenceRejected | EPCTools/src/main/java/com/jensui/epctools/EPCTools.java:199-203 | `Integer.parseInt` of the text `null` fails the reference checks |
| Facade.ParsedNumeric | EPCTools/src/main/java/com/jensui/epctools/EPCTools.java:400-408 | every decoded map's company prefix and item reference are numeric text |
| Facade.FieldsNumeric | EPCTools/src/main/java/com/jensui/epctools/EPCTools.java:400-408 | a record with digit prefix and reference gives a map with numeric prefix and reference |
| Facade.Reserialise | EPCTools/src/main/java/com/jensui/epctools/EPCTools.java:282-289 | an image the decoder rejects fails with the decoder's error |
| Facade.CreateSgtin96FromImage | EPCTools/src/main/java/com/jensui/epctools/EPCTools.java:282-289 | the reserialising overload decodes the image and encodes it again with the new serial |
| Facade.ReserialiseData | EPCTools/src/main/java/com/jensui/epctools/EPCTools.java:284-288 | the overload's steps after decoding, applied to a map |
| Accessors.GtinSplit | EPCTools/src/main/java/com/jensui/epctools/EPCTools.java:339-341 | the GTIN overloads' prefix and reference are 6 and 7 digits and rejoin, the way `getGTIN` joins them, into the GTIN's first 13 digits |
| Accessors.GtinOfImage | EPCTools/src/main/java/com/jensui/epctools/EPCTools.java:132-140 | `getGTIN` of a decoded SGTIN image is its reference's first digit, prefix and reference's rest, followed by their check digit |
| Accessors.Sgtin96CanonicalImage | EPCTools/src/main/java/com/jensui/epctools/EPCTools.java:393-411 | prefix and reference written at the decoder's widths come back verbatim from an SGTIN-96 image, with the zero-filled serial |
| Accessors.Sgtin198CanonicalImage | EPCTools/src/main/java/com/jensui/epctools/EPCTools.java:393-431 | the same for an SGTIN-198 image, with the serial `Sgtin198Serial` describes |
| Accessors.Sgtin96GtinRoundTrip | EPCTools/src/main/java/com/jensui/epctools/EPCTools.java:339-341 | `getGTIN` of the SGTIN-96 image of a GTIN is its first 13 digits followed by their check digit |
| Accessors.Sgtin198GtinRoundTrip | EPCTools/src/main/java/com/jensui/epctools/EPCTools.java:343-345 | the same for the SGTIN-198 image |
| Accessors.ValidGtinSplit | EPCTools/src/main/java/com/jensui/epctools/EPCTools.java:488-509 | a valid 14-digit GTIN is its first 13 digits followed by their check digit |
| Accessors.GtinComesBack | EPCTools/src/main/java/com/jensui/epctools/EPCTools.java:339-345 | a valid GTIN encoded by either GTIN overload comes back from `getGTIN` unchanged, whatever the serial |
| Accessors.SsccCanonicalImage | EPCTools/src/main/java/com/jensui/epctools/EPCTools.java:412-417 | a prefix at its decimal width, a one-digit extension and a fitting serial reference come back as the prefix and the extension followed by the zero-filled serial reference |
| Accessors.SsccOfImage | EPCTools/src/main/java/com/jensui/epctools/EPCTools.java:169-178 | `getSSCC` of a decoded SSCC image is the serial reference's first digit, prefix and the reference's rest, followed by their check digit |
| Accessors.SsccFromPrefixRoundTrip | EPCTools/src/main/java/com/jensui/epctools/EPCTools.java:347-358 | `getSSCC` of an image the company-prefix overload wrote is extension, prefix and zero-filled serial reference (17 digits) plus their check digit, an 18-digit code that passes `isValidGTIN` |
| Accessors.Sgtin96Accessors | EPCTools/src/main/java/com/jensui/epctools/EPCTools.java:291-323 | on an image the SGTIN-96 encoder wrote, `getCompanyPrefix`, `getItemReference` and `getSerialNumber` return the parsed inputs zero-filled to 12 - p, p + 1 and 12 digits, and both URIs are built from those texts and the filter |
| Accessors.Sgtin96GtinUri | EPCTools/src/main/java/com/jensui/epctools/EPCTools.java:339-341 | the SGTIN-96 image of a GTIN has the pure identity URI with GTIN digits 2-7 as prefix, the indicator digit and digits 8-13 as item reference, and the 12-digit serial |
| Accessors.Sgtin198Accessors | EPCTools/src/main/java/com/jensui/epctools/EPCTools.java:142-155 | on an image the SGTIN-198 encoder wrote, the getters return the zero-filled prefix and reference and the serial `Sgtin198Serial` describes, and neither 96-bit URI exists |
| Accessors.SsccAccessors | EPCTools/src/main/java/com/jensui/epctools/EPCTools.java:291-323 | on an image the SSCC encoder wrote with fitting values, `getCompanyPrefix` and `getSerialNumber` return them zero-filled to 12 - p and p + 5 digits, `getItemReference` returns null, and both URIs are built from those texts and the filter |
| Accessors.SsccPrefixUri | EPCTools/src/main/java/com/jensui/epctools/EPCTools.java:347-358 | the SSCC image the company-prefix overload wrote has the pure identity URI of the prefix as given, then the extension digit and the serial reference zero-filled to 16 minus the prefix length in digits |
| Accessors.SameValuesSameImage | EPCTools/src/main/java/com/jensui/epctools/EPCTools.java:194-203 | the SGTIN-96 encoder sees prefix and reference only through their parsed values |
| Accessors.Sgtin96MapReserialised | EPCTools/src/main/java/com/jensui/epctools/EPCTools.java:282-289 | an SGTIN-96 map whose filter and partition parse is encoded again from its own prefix and reference |
| Accessors.ReserialiseFields | EPCTools/src/main/java/com/jensui/epctools/EPCTools.java:284-287 | on a decoded SGTIN-96 map the overload reads back the filter, partition, prefix and reference values that were written |
| Accessors.ReserialiseImage | EPCTools/src/main/java/com/jensui/epctools/EPCTools.java:282-289 | reserialising an SGTIN-96 image equals encoding its original fields with the new serial, and with the old serial gives the image back |

## Left out

- Logging (`java.util.logging`) and `Serializable` have no behaviour to model.
- The instance constructor and `init` re-fill the same static tables. The
  tables are constants here, so their re-population is not modelled.
- `binStringToLong` adds `Math.pow` values, which are doubles, to a `long`.
  The model computes the exact value. The doubles are exact up to 2^53, and
  the rounding of wider fields is not modelled.
- The encoders require the texts Java reads with `Integer.parseInt` or
  `Long.parseLong` (company prefix, item reference, serial reference,
  extension digit, SGTIN-96 serial, GTIN) to be ASCII text without a sign
  (`NumericText`). Those parsers also accept a leading `+` or `-` and
  non-ASCII Unicode digits; those inputs are not modelled.
- Checksum.CheckDigit, Checksum.GetChecksum, Checksum.ValidGtin,
  Checksum.IsValidGtin, Facade.Assemble, Facade.GtinOf and Facade.SsccOf take
  any text but count only the ASCII characters `0`-`9` as digits. Java reads
  each character with `Integer.parseInt`, which also accepts non-ASCII
  Unicode digits such as the Arabic-Indic ones. On such text the model fails
  (or answers false) where Java computes a check digit.
- Encoder.Sgtin198Bits, Encoder.Sgtin198Encoding, Encoder.CreateSgtin198HexEpc,
  Encoder.Sgtin198FromGtin, Encoder.CreateSgtin198FromGtin,
  SevenBit.Pack7 and SevenBit.ToBinaryString require an ASCII serial
  (`IsAscii`). Java packs the bytes of `getBytes()` in the platform charset;
  a non-ASCII character becomes one or more bytes, and each negative byte is
  written as 32 binary digits. That packing is not modelled.
- Filters are `nat`. A negative Java `int` filter writes 32 binary digits
  and is not modelled.
- Java `null` arguments and null return values other than those of
  `HashMap.get` are not modelled.
- `Long` and `int` overflow are not modelled. Values are unbounded, and the
  parse limits of `Integer.parseInt` and `Long.parseLong` are kept
  explicitly.
- `createEPCPureIdentityURI_198` and `createEPCTagURI_198` return a fixed
  text without reading their input; they are not modelled.
- The final `else` of `parseHexString` (the "invalid input hex string"
  exception) cannot be reached. The header text is always one of the nine
  encoding names, so that branch has no counterpart.
- Error kinds refine the source's single `Exception`. The model
  distinguishes causes that Java reports with one type.
- The individual asset reference table is used only to derive the item
  reference width, as the source uses it.
- Concrete encoder test vectors, such as `301800000000000000000001`, and the
  SSCC parse vector `315402422000000045000000` are not restated as lemmas.
  The shape and round-trip lemmas cover them for all inputs.
- Tables.Encoding.Name: its contract states only that the name has at least
  four characters; that the names tell the encodings apart is stated by
  `Tables.NamesDistinct`.
- Facade.Reserialise: its own contract states only the decoder-failure case.
  What it returns for an image the SGTIN-96 encoder wrote is stated by
  `Accessors.ReserialiseImage`, and for any decoded map by
  `Facade.ReserialiseMap` with `Facade.NullItemReference`.
- Facade.PureIdentityUriOf and Facade.TagUriOf: the URI text is stated for
  maps that hold every entry it reads. A missing entry prints as `null` in
  Java; that text is left to the function body, since no decoded map lacks
  an entry its header calls for.
