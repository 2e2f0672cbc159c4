# Penta symbol codec

This project models the symbol codec of `src/SymbolCodec.c`. The codec
compresses short symbols, such as ticker names, into 32-bit ciphers. It also
reads the tagged byte format in which symbols are serialized. The model has
four parts.

- **Alphabet table** (`alphabet.dfy`, module `Alphabet`). The codec gives
  each character a penta code:
  - 'A'..'Z' get the 5-bit codes 1..26;
  - '.', '/' and '$' get 27, 28 and 29;
  - every other printable ASCII character, except the apostrophe and the
    backtick, gets the next 10-bit code in 960..1023, in ascending order.

  The table is defined twice:
  - declaratively, by `PentaOf`, `WidthOf` and `CharOf`;
  - by `InitSymbolCodec`, which fills the three arrays `pentas`, `plength`
    and `characters` in the order `initSymbolCodec` does.

  The contract of `InitSymbolCodec` ties every slot of the arrays to the
  declarative table.
- **Packing** (`penta.dfy`, module `Penta`).
  - A symbol of up to 7 characters is packed into a penta of at most 35 bits.
    The codes are concatenated, with the first character in the most
    significant bits.
  - The bit length is recovered from the penta's magnitude, as `readSymbol`
    does.
  - A penta is unpacked through the escape groups 30 and 31.
- **Cipher** (`cipher.dfy`, module `Cipher`). These model `encodePenta`,
  `decodeCipher`, `encode` and `WILDCARD_CIPHER`. The top two bits of a
  cipher are a tag:
  - 1 marks a penta of up to 30 bits;
  - 2 marks a 35-bit penta whose top group is the code of '/';
  - 3 marks a 35-bit penta whose top group is the code of '$';
  - tag 0 is never produced except as cipher 0 ("no cipher"), and every tag-0 cipher is rejected on decode.
- **Wire format** (`wire.dfy`, module `Wire`). This models `readSymbol`. The
  first byte selects one of these forms:
  - a 15-, 20-, 30- or 35-bit penta;
  - one of two reserved ranges;
  - a UTF-8 string;
  - a CESU-8 string;
  - the empty penta;
  - null.

  A penta that has a cipher is returned as that cipher. Any other penta falls
  back to its string.

Integer widths are written out explicitly:
- A cipher is an unsigned 32-bit pattern, `Int32Bits`. The Java `int` and the
  C `jInt` are read as bit patterns.
- `(jInt) penta + 0x40000000` is truncated and wrapped modulo 2^32.
- Shifts and masks are the recursive `Shl`, `Shr` and `Low` of module `Arith`.

## Model

| member | source | states |
|---|---|---|
| `Alphabet.InitPenta` | src/SymbolCodec.c:94-98 | records the code and width of one character and that character as the code's inverse, leaving every other slot unchanged |
| `Alphabet.InitShortCodes` | src/SymbolCodec.c:103-117 | after the reset and the first phase, exactly the 5-bit characters have codes; all other widths are 64 and all other slots are 0 |
| `Alphabet.InitLongCodes` | src/SymbolCodec.c:118-123 | the ascending scan over 32..126 leaves every slot as the declarative table says; the counter ends at 0x3C0 plus the number of 10-bit characters |
| `Alphabet.ScanCharacter` | src/SymbolCodec.c:120-122 | one visit of the scan keeps the scan invariant: after character `i` the table holds the final code and width of every character up to `i` and the counter has passed exactly the 10-bit characters seen so far |
| `Alphabet.InitSymbolCodec` | src/SymbolCodec.c:101-128 | construction never reports the internal error; every `pentas`, `plength` and `characters` slot matches the table; `characters[pentas[c]] == c` for every eligible `c` |
| `Alphabet.LongTotal` | src/SymbolCodec.c:118-127 | exactly 64 characters receive a 10-bit code, so the counter reaches 0x400 |
| `Alphabet.CodeRanges` | src/SymbolCodec.c:29-39 | a 5-bit code lies in 1..29; a 10-bit code lies in 960..1023 and its top group is 30 or 31; an ineligible character has code 0 and width 64 |
| `Alphabet.CodesDistinct` | src/SymbolCodec.c:29-35 | distinct eligible characters have distinct codes |
| `Alphabet.CharOfPentaOf` | src/SymbolCodec.c:94-98 | the character stored for the code of an eligible character is that character |
| `Alphabet.PentaOfCharOf` | src/SymbolCodec.c:85-88 | every code in 1..29 or 960..1023 maps to an eligible character that has exactly that code; every other slot maps to 0 |
| `Penta.PackLength` | src/SymbolCodec.c:185-187 | the bit length of a packed symbol is a multiple of 5, between 5 and 10 bits per character |
| `Penta.PackValue` | src/SymbolCodec.c:41-43 | the packed value fits in the packed bit length |
| `Penta.PackSnoc` | src/SymbolCodec.c:181-188 | appending a character shifts the packed value left by the character's width and adds its code, as the loop of `encode` accumulates |
| `Penta.LeadChunk` | src/SymbolCodec.c:37-39 | the top 5-bit group of a packed symbol is its first character's code, or that code's escape group, and is never 0 |
| `Penta.PentaLength` | src/SymbolCodec.c:242-244 | the recovered length is a multiple of 5, at most 35, and the least length the penta fits in |
| `Penta.MeasurePenta` | src/SymbolCodec.c:242-244 | the loop `while ((penta >>> plen) != 0) plen += 5` computes exactly that least multiple of 5 |
| `Penta.PentaLengthUnique` | src/SymbolCodec.c:242-244 | any multiple of 5 that bounds the penta from above with a nonzero top group is the recovered length |
| `Penta.ShortPenta` | src/SymbolCodec.c:137 | a penta's recovered length is at most 30 exactly when the penta is below 2^30 |
| `Penta.Unpack` | src/SymbolCodec.c:37-39 | every string unpacked from a penta packs back to that penta in that number of bits |
| `Penta.UnpackPack` | src/SymbolCodec.c:37-43 | unpacking the packed form of a symbol gives the symbol back |
| `Penta.PackedLengthRecovered` | src/SymbolCodec.c:41-46 | a packed symbol of at most 35 bits is below 2^35, and its length is recovered from its value alone |
| `Penta.Pack` | src/SymbolCodec.c:177-190 | packing succeeds exactly for symbols of at most 7 eligible characters and at most 35 bits; the result's length is recoverable and the result unpacks to the symbol |
| `Cipher.EncodePenta` | src/SymbolCodec.c:135-145 | a penta of up to 30 bits gets tag 1 with itself as payload; a wider penta gets a nonzero cipher exactly when its top group is the code of '/' (tag 2) or '$' (tag 3), with its low 30 bits as payload |
| `Cipher.ShortCipher` | src/SymbolCodec.c:137-138 | `(jInt) penta + 0x40000000` is nonzero, tagged 1 and carries the penta for every penta below 2^30 |
| `Cipher.DecodeCipher` | src/SymbolCodec.c:152-170 | a tag-0 cipher (cipher 0 included) is an illegal argument; every other cipher decodes to a penta below 2^35 that `encodePenta` maps back to it |
| `Cipher.DecodeEncodePenta` | src/SymbolCodec.c:135-170 | decoding undoes `encodePenta` whenever it gives a cipher and the length does not understate the penta |
| `Cipher.LeadIsSlashOrDollar` | src/SymbolCodec.c:140-143 | only '/' and '$' lead with the group 28 or 29 |
| `Cipher.EncodeCases` | src/SymbolCodec.c:189-191 | a packed symbol of at most 35 bits gets a cipher exactly when it has at most 30 bits or starts with '/' or '$', and that cipher decodes to its packed value |
| `Cipher.Encode` | src/SymbolCodec.c:173-192 | the result is nonzero exactly for a non-null symbol of at most 7 eligible characters within 35 bits that, when it packs to 35 bits, starts with '/' or '$'; a nonzero result decodes to the packed symbol |
| `Cipher.EncodeLoop` | src/SymbolCodec.c:173-192 | the loop as written, with width 64 for characters without a code and an early exit at code units of 128 or more, returns the same as `Encode` |
| `Cipher.DecodeEncode` | src/SymbolCodec.c:152-192 | every symbol that has a cipher is recovered from it |
| `Cipher.EncodeDecode` | src/SymbolCodec.c:152-192 | every symbol a cipher decodes to encodes back to that cipher |
| `Cipher.WildcardValue` | src/SymbolCodec.c:90 | `WILDCARD_CIPHER`, the cipher of "*", is 0x400003C8 |
| `Cipher.EncodeExamples` | src/SymbolCodec.c:173-192 | the empty symbol has cipher 0x40000000, and "IBM" has cipher 0x4000244D |
| `Wire.HeaderPenta` | src/SymbolCodec.c:196-207 | the penta read from each form fits in 15, 20, 30 or 35 bits, as its first byte says |
| `Wire.ReadForm15` | src/SymbolCodec.c:198-199 | a first byte below 0x80 and one more byte read, big-endian, as any penta below 2^15 and consume two bytes |
| `Wire.ReadForm20` | src/SymbolCodec.c:204-205 | tag 1110 with the top four payload bits and a short read as any penta below 2^20 and consume three bytes |
| `Wire.ReadForm30` | src/SymbolCodec.c:200-201 | tag 10 with the top six payload bits, a byte and a short read as any penta below 2^30 and consume four bytes |
| `Wire.ReadForm35` | src/SymbolCodec.c:206-207 | tag 11110 with the top three payload bits and an int read as any penta below 2^35 and consume five bytes |
| `Wire.PentaSymbol` | src/SymbolCodec.c:242-248 | a penta is returned as a nonzero cipher that decodes to it, or falls back to its string exactly when it is wider than 30 bits and leads with neither '/' nor '$' |
| `Wire.EmptyPentaSymbol` | src/SymbolCodec.c:236-237 | the empty penta reads as the cipher 0x40000000 |
| `Wire.ReadCharacters` | src/SymbolCodec.c:226-231 | reading `length` characters succeeds exactly when that many code points arrive and none is above 0xFFFF, and it keeps them in order; "Code point is beyond BMP." is raised exactly when one in range is above 0xFFFF |
| `Wire.ReadCesu` | src/SymbolCodec.c:216-235 | once `readCompactLong` has given the length: a length below -1 or above `Integer.MAX_VALUE` is "Illegal length."; -1 is null; 0 is the empty string; any other length succeeds exactly when that many code points within the basic multilingual plane arrive, giving them in order as a string of that length; it fails with "Code point is beyond BMP." exactly when one of them is above 0xFFFF, and otherwise with the end of input when they run out |
| `Wire.ReadSymbol` | src/SymbolCodec.c:195-249 | empty input ends early; reserved first bytes fail; a penta form succeeds exactly when its bytes are present, consumes exactly them, and ends early when they are cut short; 0xFC gives the string `readUTFString` returns or fails as it does; 0xFD fails as `readCompactLong` does or gives the CESU-8 result for the length it returns; 0xFE gives the cipher 0x40000000 and 0xFF null; a returned cipher is never 0 |
| `Wire.ReadWritePenta` | src/SymbolCodec.c:50-62 | every penta written in its narrowest form of the format table reads back as that penta's symbol, consuming exactly the written bytes |
| `Wire.ReadPackedSymbol` | src/SymbolCodec.c:242-248 | a packed symbol read back from its serial form stands for that symbol, and the cipher returned for it is exactly `encode` of the symbol |

## Left out

- `readUTFString`, `readCompactLong` and `readUTFChar` are `BufferedInput` readers that are not part of this model. Their results are the parameter `StringReads`: the results or errors of `readUTFString` and `readCompactLong`, and the code points of `readUTFChar`, for which only running out of input is modelled. The bytes they consume are not counted in `Read.consumed`.
- The caller-buffer shortcut of the CESU-8 branch (src/SymbolCodec.c:225, 232-233) is left out. It depends on `VALID_CIPHER` and on the caller's buffer, and neither is part of this model. The model always delivers the string itself.
- Wire.ReadSymbol: a failure does not say how many bytes were consumed before it. The reserved ranges consume only the tag byte; the model does not record that.
- Exceptions and error codes become `Result` values. `EOFException` is `EndOfInput`; the three `IOException` messages are `ReservedBitSequence`, `IllegalLength` and `CodePointBeyondBmp`; `pr_illegal_argument` and `pr_internal_error` are `CodecError`.
- The global arrays are a `Table` value, not mutable state. The COM wrappers and `src/PrimitiveTypes.h` are not modelled beyond fixing `jInt` to 32 and `jLong` to 64 bits.
- `initSymbolCodec` has no `return` on its success path (src/SymbolCodec.c:128). The model returns success explicitly.
- `decodeCipher`'s `default` branch (src/SymbolCodec.c:165-166) cannot be reached because the tag is below 4 (`Cipher.TagRange`), so the model has no such branch.
- `Penta.Pack` rejects characters without a code explicitly instead of shifting by 64. `Cipher.EncodeLoop` keeps the width-64 path but multiplies by 2^64 on unbounded integers, whereas Java takes a `long` shift distance modulo 64 and leaves `penta` unchanged. The two differ in `penta`, but `plen` is then at least 64, so `encode` returns 0 either way.
- Cipher.EncodePenta: a call with `plen <= 30` but a penta of 2^30 or more is only modelled as the truncated, wrapped value. The contract says nothing more about it, because no caller passes such a length.
- `toString(penta)` (src/SymbolCodec.c:247) is not part of this model. `Penta.Unpack` and `Penta.ToString` are derived from the escape-code description (src/SymbolCodec.c:37-39) and the `characters` table.
- `Cipher.Decode` (decode, then unpack) is derived; the source has no such member.
- `Wire.WritePenta` is derived from the format table (src/SymbolCodec.c:50-62), because the writer is not part of this model. It is used only to state the round trip of `readSymbol`.
- `WILDCARD_CIPHER` is a constant; the order of static initialisation noted at src/SymbolCodec.c:90 is not modelled.
