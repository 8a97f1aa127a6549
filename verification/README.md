# zero-width-encoder-wasm, modelled in Dafny

The repository hides text inside text. It encodes the UTF-8 bytes of a message as
invisible zero-width characters, and it can splice such a payload into the middle of
a carrier text and find it again later. This project models its Rust core and proves
what that core promises.

- **Utf8** (`utf8.dfy`): what the core borrows from Rust's standard library.
  `str::as_bytes` and `String::from_utf8` are modelled as UTF-8 encoding and checked
  decoding, as sections 3 and 4 of RFC 3629 define them. This includes the error
  offset and length that `Utf8Error` reports.
- **Alphabet** (`alphabet.dfy`): the symbol tables.
  - The body of `encode_table()` is not part of this model, so every 2-bit operation
    takes its table `t` as a parameter.
  - `IsTable` requires exactly four pairwise distinct characters.
  - The encoder and decoder tests imply the table `ZeroWidthTable`:
    U+200C, U+200D, U+2060, U+2062.
  - The steganography tests imply a different table, `StegoTable`:
    U+200B, U+200C, U+200D, U+2060.
  - No single table satisfies both suites, so each suite's fixtures are proved
    against its own table.
- **Encoder** (`encoder.dfy`, `src/encoder/mod.rs`): every byte becomes four table
  symbols, most significant 2-bit group first.
- **Decoder** (`decoder.dfy`, `src/decoder/mod.rs`): decoding runs in three steps.
  1. Any character outside the table rejects the whole input.
  2. The symbols are regrouped in fours and folded with `acc << 2 | x` on a `u8`. A
     trailing remainder of one to three symbols is dropped.
  3. The rebuilt bytes are read back as UTF-8.
- **BinaryCodec** (`binary_codec.dfy`, `src/lib.rs`): a second, 1-bit codec.
  - Each byte becomes eight symbols, ZERO (U+200B) or ONE (U+200C), built from
    `format!("{:b}")` padded to eight digits.
  - Decoding folds `acc << 1 | x` over each group of eight.
  - Each rebuilt byte is read as the character with that code.
- **Steganography** (`steganography.dfy`, `src/steganography/mod.rs`):
  - `src/lib.rs` also defines a 1-bit `encode` at the crate root, but the
    steganography module is modelled over the 2-bit codec, because its fixtures
    (`src/steganography/mod.rs:78`) are 48 symbols drawn from four characters.
  - `embed` splices the 2-bit encoding of the payload into the carrier.
  - `detect` decodes the first maximal run of table characters and drops it if it
    fails to decode.
  - `detect` and `convert_to_js_array` are loops in the source, so they are modelled
    as methods with loop invariants. `Detect` is proved equal to the specification
    function `Detected`, and the lemmas about `detect` are stated about that function.
    `ConvertToJsArray` is proved to return its input unchanged.

Facts about the code that the model follows:

- The "Hello World!" fixture of the 2-bit codec is 48 symbols (12 bytes × 4).
- `detect` returns at most one string. A single `RegExp.exec` yields only the first
  match (see Findings).
- A run of one to three table symbols decodes to the empty string, and `detect`
  reports that empty string (`DetectShortRun`).

## Model

| member | source | states |
|---|---|---|
| Utf8.EncodeChar | src/encoder/mod.rs:7 | One character is 1 to 4 bytes. It is exactly one byte iff the character is ASCII. The lead byte is never C0, C1 or F5 and above. |
| Utf8.Encode | src/encoder/mod.rs:7 | `as_bytes`: at least one byte per character; empty iff the text is empty |
| Utf8.EncodeAppend | src/encoder/mod.rs:7 | The bytes of a concatenation are the concatenation of the bytes |
| Utf8.EncodeAscii | src/lib.rs:7 | An ASCII text's bytes are its character codes, one per character |
| Utf8.DecodeFirst | src/decoder/mod.rs:38 | One character read from the front. On success its bytes are exactly the prefix consumed. On failure: an error length of 1 to 3, or truncated input. |
| Utf8.Decode | src/decoder/mod.rs:38 | `from_utf8`: on `Ok`, the text's UTF-8 form is exactly the input; on `Err`, the valid prefix ends inside the input |
| Utf8.DecodeFirstEncodeChar | src/decoder/mod.rs:38 | The bytes of any character are read back as that character, whatever follows them |
| Utf8.DecodeEncode | src/decoder/mod.rs:38-42 | `from_utf8(s.as_bytes()) == Ok(s)` for every text |
| Utf8.DecodeIff | src/decoder/mod.rs:38-42 | `from_utf8(b) == Ok(s)` iff `b` is the UTF-8 form of `s` (both directions) |
| Utf8.DecodeValidUpTo | src/decoder/mod.rs:41 | The prefix up to the reported `valid_up_to` decodes successfully |
| Utf8.Decimal | src/decoder/mod.rs:41 | `{}` of an unsigned integer: decimal digits only, a leading '0' only for zero, the last digit is `n mod 10` |
| Utf8.ErrorText | src/decoder/mod.rs:41 | The `Display` of `Utf8Error`, with its parts stated by `ErrorTextParts` |
| Utf8.ErrorTextParts | src/decoder/mod.rs:41 | "invalid utf-8 sequence of N bytes from index I" when the error length N is known, else "incomplete utf-8 byte sequence from index I": where each fixed part and each number lies in the text |
| Utf8.DecodeStrayContinuation | src/decoder/mod.rs:81-85 | An ASCII byte followed by a continuation byte fails with one bad byte at index 1 |
| Alphabet.IsTable | src/encoder/mod.rs:18-23 | The shape of `encode_table()`: exactly four pairwise distinct characters, indexed by 2-bit value; `Decoder.SymbolValueOfEntry` shows the decoder's first-match guards then give entry d the value d |
| Alphabet.FixtureTables | src/encoder/mod.rs:37 | Both fixture tables are valid tables, and they differ |
| Alphabet.HelloTextAscii | src/encoder/mod.rs:36 | The fixture text "Hello World!" is ASCII |
| Encoder.Group | src/encoder/mod.rs:17 | `(byte >> 2i) & 0b11` is below 4, so the `panic!` arm of the match is unreachable |
| Encoder.Symbol | src/encoder/mod.rs:18-24 | Every arm yields a table entry |
| Encoder.ConvertToZeroWidth | src/encoder/mod.rs:15-28 | Four symbols per byte, all from the table |
| Encoder.EncodeBytes | src/encoder/mod.rs:9-12 | Four symbols per byte, concatenated in byte order |
| Encoder.Encode | src/encoder/mod.rs:6-13 | Output length is 4 × the number of UTF-8 bytes; every character is a table entry; empty iff the input is empty; total |
| Encoder.EncodeBytesSymbols | src/encoder/mod.rs:18-23 | Every output character is one of the four table entries |
| Encoder.DigitsRecompose | src/encoder/mod.rs:16-17 | The four 2-bit groups, most significant first, recompose the byte in base 4: `64(b/64) + 16(b/16%4) + 4(b/4%4) + b%4 == b` |
| Encoder.ConvertToZeroWidthDigits | src/encoder/mod.rs:16-26 | After `.rev()`, a byte's symbols are `t[b>>6], t[(b>>4)&3], t[(b>>2)&3], t[b&3]` |
| Encoder.EncodeBytesGroups | src/encoder/mod.rs:9-12 | Byte k of the input owns output symbols 4k to 4k+3, and they are that byte's four symbols |
| Encoder.EncodeBytesAt | src/encoder/mod.rs:9-26 | Output symbol i is group `3 - i % 4` of byte `i / 4` |
| Encoder.EncodeBytesAppend | src/encoder/mod.rs:9-12 | Encoding bytes distributes over concatenation |
| Encoder.EncodeAppend | src/encoder/mod.rs:6-13 | `encode(s + u) == encode(s) + encode(u)` |
| Encoder.EncodeAsciiChar | src/encoder/mod.rs:6-13 | An ASCII character encodes to the four symbols of its code |
| Encoder.EncodeSnoc | src/encoder/mod.rs:6-13 | Appending an ASCII character appends its four symbols |
| Encoder.EncodeSnocFour | src/encoder/mod.rs:6-13 | Appending four ASCII characters appends their symbols in order |
| Encoder.EncodeTwelve | src/encoder/mod.rs:6-13 | A twelve-character ASCII text encodes byte by byte, in order |
| Encoder.ConvertToZeroWidthFixtures | src/encoder/mod.rs:42-88 | For any table: 0 gives t0 t0 t0 t0; 4 gives t0 t0 t1 t0; 170 gives t2 ×4; 255 gives t3 ×4 |
| Encoder.HelloSymbols0 | src/encoder/mod.rs:37 | The symbols of bytes 0 to 3 of "Hello World!", for any table |
| Encoder.HelloSymbols4 | src/encoder/mod.rs:37 | The symbols of bytes 4 to 7 of "Hello World!", for any table |
| Encoder.HelloSymbols8 | src/encoder/mod.rs:37 | The symbols of bytes 8 to 11 of "Hello World!", for any table |
| Encoder.EncodeHello | src/encoder/mod.rs:35-39 | The 48 symbols of "Hello World!", as table indices, for any table |
| Encoder.EncodeHelloFixture | src/encoder/mod.rs:35-39 | `test_encode`: "Hello World!" encodes to the fixture string under the encoder's table |
| Decoder.ValidateBeforeDecode | src/decoder/mod.rs:45-47 | True iff every character is a table entry (both directions) |
| Decoder.SymbolValue | src/decoder/mod.rs:52-58 | Finds the first index holding the symbol. The `panic!` arm needs a symbol outside the table, which the caller has already excluded. |
| Decoder.ShiftIn | src/decoder/mod.rs:59 | Shifting a 2-bit value into a `u8` accumulator: the low two bits are the value and the rest are the accumulator's low six bits |
| Decoder.Fold | src/decoder/mod.rs:59 | The `fold` from an accumulator: the empty input keeps it; otherwise the low two bits are the last symbol's value (exact value: `ConvertFromZeroWidthValue`) |
| Decoder.ConvertFromZeroWidth | src/decoder/mod.rs:49-60 | `convert_from_zero_width` folds from 0; its low two bits are the last symbol's value. Its value on four symbols is `ConvertFromZeroWidthValue`, its inverse `ConvertRoundTrip` |
| Decoder.InvalidCodeMessage | src/decoder/mod.rs:17 | "Invalid zero-width code: " followed by the whole input |
| Decoder.InvalidUtf8Message | src/decoder/mod.rs:41 | "Invalid UTF8: " followed by the `Utf8Error` text |
| Decoder.Bytes | src/decoder/mod.rs:20-35 | Exactly ⌊n/4⌋ bytes; byte k comes from symbols 4k to 4k+3 |
| Decoder.Decode | src/decoder/mod.rs:14-43 | A foreign character gives `Err("Invalid zero-width code: " + input)`. `Ok` iff the input is valid and its bytes are UTF-8, and then the text's bytes are the rebuilt bytes. Otherwise `Err("Invalid UTF8: " + the Utf8Error text)`. |
| Decoder.SymbolValueOfEntry | src/decoder/mod.rs:53-56 | In a table, the guards map entry d to d |
| Decoder.ShiftInSmall | src/decoder/mod.rs:59 | While the accumulator is below 64, the shift loses no bits |
| Decoder.ConvertFromZeroWidthValue | src/decoder/mod.rs:49-60 | Four symbols fold to `64·v0 + 16·v1 + 4·v2 + v3` |
| Decoder.SymbolsOfDigits | src/encoder/mod.rs:15-28 | The byte made of four base-4 digits encodes to the symbols of those digits |
| Decoder.ConvertRoundTrip | src/decoder/mod.rs:49-60 | `convert_from_zero_width(convert_to_zero_width(b)) == b` for every byte |
| Decoder.ConvertRoundTripBack | src/decoder/mod.rs:49-60 | `convert_to_zero_width(convert_from_zero_width(g)) == g` for every group of four symbols |
| Decoder.BytesCons | src/decoder/mod.rs:24-35 | The first group becomes the first byte, and the rest decodes on its own (group order is kept) |
| Decoder.BytesShort | src/decoder/mod.rs:20-22 | Fewer than four symbols give no byte |
| Decoder.BytesEncodeBytes | src/decoder/mod.rs:24-35 | Rebuilding the bytes of an encoding gives the original bytes |
| Decoder.EncodeBytesBytes | src/decoder/mod.rs:20-35 | Re-encoding the rebuilt bytes gives every complete group of the input |
| Decoder.DecodeEncode | src/decoder/mod.rs:14-43 | Round trip: `decode(encode(s)) == Ok(s)` for every text and table |
| Decoder.EncodeDecode | src/decoder/mod.rs:14-43 | If `decode(code)` succeeds, encoding its text gives back the complete groups of `code` |
| Decoder.DecodeIgnoresRemainder | src/decoder/mod.rs:20-22 | A trailing remainder of 1 to 3 valid symbols does not change the result |
| Decoder.DecodeShort | src/decoder/mod.rs:20-22 | Fewer than four valid symbols decode to `Ok("")` |
| Decoder.DecodeHelloFixture | src/decoder/mod.rs:67-71 | `test_decode`: the fixture decodes to "Hello World!" |
| Decoder.DecodePlainTextFixture | src/decoder/mod.rs:74-78 | `test_decode_invalid_input_01`: "Hello World!" is rejected with the exact message |
| Decoder.ShiftedCodeSymbols | src/decoder/mod.rs:82 | The input with one symbol removed still consists of 47 table symbols |
| Decoder.ShiftedCodePrefix | src/decoder/mod.rs:82 | The first eight symbols of that input |
| Decoder.ShiftedCodeBytes | src/decoder/mod.rs:82 | Its bytes are 11 in number and begin with 0x41 and 0x95 (a stray continuation byte) |
| Decoder.DecodeShiftedFixture | src/decoder/mod.rs:81-85 | `test_decode_invalid_input`: the error starts with "Invalid UTF8:" and reports one bad byte at index 1 |
| Decoder.ValidateFixtures | src/decoder/mod.rs:88-97 | `test_validate_before_decode`: the four entries pass and "hello world" fails |
| Decoder.ConvertFromZeroWidthFixtures | src/decoder/mod.rs:100-134 | For any table, `test_convert_from_zero_width`: t0 ×4 gives 0, t2 ×4 gives 170, t3 ×4 gives 255 |
| BinaryCodec.FormatBinary | src/lib.rs:16 | `{:b}` has at least one digit |
| BinaryCodec.Zeros | src/lib.rs:19-20 | The padding has the requested length |
| BinaryCodec.BytesToBinary | src/lib.rs:15-22 | Eight digits for every byte; `8 - len` never underflows |
| BinaryCodec.DigitSymbol | src/lib.rs:26-30 | '0' maps to ZERO and '1' to ONE |
| BinaryCodec.ConvertToZeroWidth | src/lib.rs:24-32 | Maps digits to symbols pointwise and keeps the length |
| BinaryCodec.EncodeByte | src/lib.rs:8-11 | Eight symbols per byte, all ZERO or ONE |
| BinaryCodec.EncodeBytes | src/lib.rs:8-12 | Eight symbols per byte, all ZERO or ONE |
| BinaryCodec.Encode | src/lib.rs:6-13 | Exactly 8 × the number of UTF-8 bytes symbols, all ZERO or ONE |
| BinaryCodec.SymbolBit | src/lib.rs:49-52 | A symbol's bit is 0 or 1 |
| BinaryCodec.ShiftIn | src/lib.rs:54 | Shifting a bit into a `u8` accumulator gives `(2·acc + x) mod 256` |
| BinaryCodec.Fold | src/lib.rs:54 | The `fold` from an accumulator: the empty input keeps it; otherwise the low bit is the last symbol's bit (exact value: `FoldBinary`) |
| BinaryCodec.ConvertFromZeroWidth | src/lib.rs:47-55 | Folds the bits from 0; the low bit is the last symbol's. Its value is `FoldBinary`, its inverse `EncodeByteRoundTrip` |
| BinaryCodec.DecodeBytes | src/lib.rs:36-43 | Exactly ⌊n/8⌋ bytes; byte k comes from symbols 8k to 8k+7 |
| BinaryCodec.Latin1 | src/lib.rs:44 | `b as char`: character i has code byte i |
| BinaryCodec.Decode | src/lib.rs:35-45 | One character per complete group of eight; the remainder is dropped |
| BinaryCodec.DecodeUtf8 | src/lib.rs:44 | The intended decoder: on success, the text's UTF-8 form is the rebuilt bytes |
| BinaryCodec.FormatBinaryValue | src/lib.rs:16 | `{:b}` gives binary digits whose value is the number, with no leading zero |
| BinaryCodec.ZerosValue | src/lib.rs:19-20 | The padding is binary with value 0 |
| BinaryCodec.FormatBinaryLength | src/lib.rs:17-19 | Below 2^k, `{:b}` has at most k digits |
| BinaryCodec.BinaryValuePadded | src/lib.rs:21 | Leading zeros do not change the value |
| BinaryCodec.BytesToBinaryValue | src/lib.rs:15-22 | `bytes_to_binary(b)` is binary with value b |
| BinaryCodec.BinaryUnique | src/lib.rs:15-22 | A binary string is the fixed-width representation of its own value |
| BinaryCodec.BytesToBinaryBits | src/lib.rs:15-22 | `bytes_to_binary(b)` is the 8-bit representation of b, most significant bit first |
| BinaryCodec.ConvertToZeroWidthSnoc | src/lib.rs:24-32 | Appending a digit appends its symbol |
| BinaryCodec.ConvertEight | src/lib.rs:24-32 | Eight digits convert symbol by symbol |
| BinaryCodec.EncodeByteBits | src/lib.rs:8-11 | A byte's symbols are those of its 8-bit representation |
| BinaryCodec.EncodeByteDigits | src/lib.rs:8-11 | A byte's symbols, bit by bit from the most significant |
| BinaryCodec.EncodeByteSpelled | src/lib.rs:8-11 | Eight symbols that spell a byte's bits are its encoding |
| BinaryCodec.FoldSnoc | src/lib.rs:54 | Folding one more symbol shifts its bit in last |
| BinaryCodec.FoldBinary | src/lib.rs:47-55 | Folding the symbols of a digit string gives its value mod 256 |
| BinaryCodec.ShiftMod | src/lib.rs:54 | Truncating to a byte before or after the shift gives the same byte |
| BinaryCodec.EncodeByteRoundTrip | src/lib.rs:47-55 | `convert_from_zero_width` of a byte's eight symbols is that byte |
| BinaryCodec.ConvertFromDigits | src/lib.rs:47-55 | The eight bit symbols of a byte are bit symbols and fold back to the byte |
| BinaryCodec.EncodeBytesGroups | src/lib.rs:8-12 | Byte k owns symbols 8k to 8k+7 |
| BinaryCodec.EncodeBytesAppend | src/lib.rs:8-12 | Encoding bytes distributes over concatenation |
| BinaryCodec.DecodeBytesEncodeBytes | src/lib.rs:36-43 | Rebuilding the bytes of an encoding gives the original bytes |
| BinaryCodec.DecodeEncode | src/lib.rs:35-45 | For every text, `decode(encode(s))` is its UTF-8 bytes read as Latin-1 |
| BinaryCodec.DecodeEncodeAscii | src/lib.rs:44 | `decode(encode(s)) == s` for ASCII text |
| BinaryCodec.DecodeEncodeLatin1Counterexample | src/lib.rs:44 | "é" comes back as "Ã©" |
| BinaryCodec.DecodeUtf8Encode | src/lib.rs:44 | The corrected decoder round-trips every text |
| BinaryCodec.DecodeIgnoresRemainder | src/lib.rs:36-41 | A trailing remainder of fewer than eight symbols does not change the result |
| BinaryCodec.EncodeSnoc | src/lib.rs:6-13 | Appending an ASCII character appends its eight symbols |
| BinaryCodec.EncodeSnocFour | src/lib.rs:6-13 | Appending four ASCII characters appends their symbols in order |
| BinaryCodec.EncodeTwelve | src/lib.rs:6-13 | A twelve-character ASCII text encodes byte by byte, in order |
| BinaryCodec.HelloBytesFirst | src/lib.rs:65 | The symbols of bytes 0 to 5 of "Hello World!" |
| BinaryCodec.HelloBytesLast | src/lib.rs:65 | The symbols of bytes 6 to 11 of "Hello World!" |
| BinaryCodec.EncodeHelloFixture | src/lib.rs:63-67 | `test_encode` |
| BinaryCodec.DecodeHelloFixture | src/lib.rs:70-74 | `test_decode` |
| BinaryCodec.BytesToBinaryFixtures | src/lib.rs:109-111 | `test_bytes_to_binary`: 0, 1 and 2 |
| BinaryCodec.BytesToBinarySpaceFixture | src/lib.rs:112 | `test_bytes_to_binary`: 32 |
| BinaryCodec.BytesToBinaryMaxFixture | src/lib.rs:113 | `test_bytes_to_binary`: 255 |
| BinaryCodec.ConvertToZeroWidthFixtures | src/lib.rs:94-100 | `test_convert_to_zero_width`: all zeros and all ones |
| BinaryCodec.ConvertToZeroWidthAlternatingFixture | src/lib.rs:102-104 | `test_convert_to_zero_width`: "10101010" |
| BinaryCodec.ConvertFromZeroWidthZeroFixture | src/lib.rs:78-80 | `test_convert_from_zero_width`: ZERO ×8 gives 0 |
| BinaryCodec.ConvertFromZeroWidthAlternatingFixture | src/lib.rs:82-84 | `test_convert_from_zero_width`: (ONE ZERO) ×4 gives 170 |
| BinaryCodec.ConvertFromZeroWidthMaxFixture | src/lib.rs:87-89 | `test_convert_from_zero_width`: ONE ×8 gives 255 |
| Steganography.Embed | src/steganography/mod.rs:7-29 | Intended `embed`: the first ⌊count/2⌋ characters, then the payload, then the rest. The length is the sum of the two. |
| Steganography.SplitAtByte | src/steganography/mod.rs:12 | `split_at` takes a byte index. On success the halves concatenate to the text and the first half has that many bytes. `None` where Rust panics; `SplitAtByteIff` shows that is exactly off a character boundary |
| Steganography.SplitAtByteIff | src/steganography/mod.rs:12 | `split_at(mid)` succeeds iff `mid` is the byte length of some prefix of the text (both directions) |
| Steganography.PrefixBytes | src/steganography/mod.rs:12 | The bytes of the first k characters are the first character's bytes, then those of the next k-1 |
| Steganography.SplitAtBoundary | src/steganography/mod.rs:12 | At the byte length of the first k characters, `split_at` returns those k characters and the rest |
| Steganography.EmbedAsWritten | src/steganography/mod.rs:7-29 | `embed` as written. When it does not panic, its length is the carrier's plus the payload's; `DetectEmbedAsWritten` is its inverse |
| Steganography.RunStart | src/steganography/mod.rs:32 | The first table character at or after i |
| Steganography.RunEnd | src/steganography/mod.rs:32 | The end of the run of table characters that starts at i |
| Steganography.FirstRun | src/steganography/mod.rs:32-34 | The leftmost maximal run of table characters; `None` iff there is none |
| Steganography.Regex | src/steganography/mod.rs:31-36 | One `exec`: `None` iff the text has no table character, else one non-empty match of table symbols |
| Steganography.DecodedOne | src/steganography/mod.rs:50-54 | One match gives at most one string |
| Steganography.DecodedRuns | src/steganography/mod.rs:48-55 | The loop keeps at most one string per match |
| Steganography.Detected | src/steganography/mod.rs:40-58 | `detect`'s result has at most one element and is empty when the text has no table character |
| Steganography.ConvertToJsArray | src/steganography/mod.rs:60-67 | The array holds the input strings in order |
| Steganography.Detect | src/steganography/mod.rs:40-58 | The loop over matches computes `Detected`, so at most one string |
| Steganography.AllRuns | src/steganography/mod.rs:31-36 | Intended: every maximal run, left to right; empty iff there is no table character |
| Steganography.DetectAll | src/steganography/mod.rs:40-58 | Intended `detect`: at most one string per run |
| Steganography.SplitAtByteAscii | src/steganography/mod.rs:12 | On ASCII text, `split_at(mid)` splits at character mid |
| Steganography.EmbedAsWrittenAscii | src/steganography/mod.rs:7-29 | On an ASCII carrier, `embed` as written is the intended splice |
| Steganography.EmbedAsWrittenPanics | src/steganography/mod.rs:9-12 | `embed("ああ", …)` panics |
| Steganography.EmbedAsWrittenTwoByte | src/steganography/mod.rs:9-12 | With a two-byte first character, the payload lands one character too early |
| Steganography.EmbedAsWrittenMisplaced | src/steganography/mod.rs:9-12 | "éaaa" gets the payload after "é", not after "éa" |
| Steganography.EmbedAtMiddle | src/steganography/mod.rs:8-12 | The payload goes between the first ⌊count/2⌋ characters and the rest |
| Steganography.EmbedAsWrittenAt | src/steganography/mod.rs:8-27 | On an ASCII carrier split at its middle, the payload goes there |
| Steganography.EmbedAsWrittenEmpty | src/steganography/mod.rs:83-88 | An empty carrier yields exactly the payload |
| Steganography.EmbedAsWrittenOneChar | src/steganography/mod.rs:91-96 | A one-character carrier, ASCII or not, gets the payload before that character: `split_at(0)` never panics |
| Steganography.FirstRunOf | src/steganography/mod.rs:31-35 | A run after table-free text, ended by a non-table character or the end of the text, is the first match |
| Steganography.DetectRun | src/steganography/mod.rs:49-55 | `detect` reports the first run decoded, or nothing if the decode fails; later runs are never looked at |
| Steganography.DetectDecoded | src/steganography/mod.rs:49-55 | A first run that decodes to v gives [v] |
| Steganography.DetectEmbedded | src/steganography/mod.rs:40-58 | A payload after table-free text is detected |
| Steganography.DetectEmbed | src/steganography/mod.rs:40-58 | `detect(embed(text, hidden)) == [hidden]` for any carrier free of table characters |
| Steganography.DetectEmbedAsWritten | src/steganography/mod.rs:7-58 | `detect` recovers the payload from the source's `embed` on every table-free carrier where `split_at` does not panic (not only ASCII ones) |
| Steganography.DetectEmbedEmpty | src/steganography/mod.rs:7-58 | An empty payload adds no symbol, so `detect` of either `embed` on a table-free carrier is `[]`, not `[""]`; this is why `DetectEmbed` needs a non-empty payload |
| Steganography.DetectShortRun | src/steganography/mod.rs:51-54 | A single table symbol decodes to "" and is reported |
| Steganography.DetectedFirstOfAll | src/steganography/mod.rs:31-35 | `detect` is the intended detect cut to its first run |
| Steganography.DecodedRunsCons | src/steganography/mod.rs:48-55 | The loop's result is the head's result followed by the tail's |
| Steganography.AllRunsAfter | src/steganography/mod.rs:31-35 | The runs of a text are its first run, then the runs after it |
| Steganography.DetectAllEmbedded | src/steganography/mod.rs:40-58 | The intended detect finds a payload and continues with the text after it |
| Steganography.DetectFirstOnly | src/steganography/mod.rs:31-35 | Two payloads separated by one ordinary character: `detect` reports only the first |
| Steganography.DetectAllTwoPayloads | src/steganography/mod.rs:49-55 | The same input: the intended detect reports both, in order |
| Steganography.StegoPayload | src/steganography/mod.rs:78 | "Hello World!" under the steganography table is the fixture payload |
| Steganography.EmbedFooBarFixture | src/steganography/mod.rs:75-80 | `test_embed` |
| Steganography.EmbedEmptyFixture | src/steganography/mod.rs:83-88 | `test_embed_non_string` |
| Steganography.EmbedOneCharFixture | src/steganography/mod.rs:91-96 | `test_embed_to_1_char` |
| Steganography.EmbedThreeCharsFixture | src/steganography/mod.rs:99-104 | `test_embed_to_3_char` |
| Steganography.DecodeStegoHello | src/steganography/mod.rs:108 | The fixture payload decodes to "Hello World!" under the steganography table |
| Steganography.DetectCarrier | src/steganography/mod.rs:108 | "hou are" and " you" hold no table character at the places that matter |
| Steganography.DetectFixture | src/steganography/mod.rs:107-115 | `test_detect` |

## Left out

- SplitAtByte: its own contract states only what a successful split returns. That it
  succeeds at every character boundary, and only there, is the separate lemma
  `SplitAtByteIff` (with `SplitAtBoundary` for the halves it returns), so that callers
  of the function do not carry the quantified statement.
- EmbedAsWritten: its own contract gives the length of the result. That `detect`
  recovers the payload from it on every table-free carrier where `split_at` does not
  panic is the separate lemma `DetectEmbedAsWritten`.

- The body of `encode_table()` is not part of this model. The table is a parameter, and
  the two fixture tables are constants.
- `wasm_bindgen` and `js_sys` marshalling:
  - `JsString` conversion is not modelled.
  - `item.as_string().unwrap()` is assumed to succeed.
  - A `js_sys::Array` of strings is modelled as a `seq<string>`.
- Steganography.Regex: the JavaScript `RegExp` engine is replaced by a scan for the
  leftmost maximal run of table characters.
  - This equals the pattern `[t]+` only when no table character is a character-class
    metacharacter such as `]`, `\`, `^` or `-`. The zero-width tables contain none.
  - UTF-16 surrogate handling in the engine is not modelled. Every table character
    lies in the Basic Multilingual Plane.
- Panics:
  - The panic arms of both `convert_to_zero_width` functions and of the 2-bit
    `convert_from_zero_width` are proved unreachable.
  - The 1-bit `decode` panics on a foreign character inside a complete group; this
    is a precondition of `BinaryCodec.Decode`.
  - `split_at` off a character boundary returns `None` in `Steganography.SplitAtByte`,
    and only there.
- The `web/` front end (React pages, the clipboard handler, JSON parsing and schema
  validation) is not part of this model.
- Machine integers are unbounded here. The `u8` shifts of both folds are written out
  with explicit truncation modulo 256.

## Findings

| source | as written | input that shows it | evidently intended | confidence | as-written member | corrected member |
|---|---|---|---|---|---|---|
| src/lib.rs:44 | Each rebuilt byte is read as the character with that code (Latin-1) | "é" (UTF-8 bytes C3 A9) encodes and decodes to "Ã©" | Read the rebuilt bytes back as UTF-8, as the 2-bit decoder does | high, not executed | BinaryCodec.DecodeEncodeLatin1Counterexample | BinaryCodec.DecodeUtf8Encode |
| src/steganography/mod.rs:9-12 | The character count `char_count / 2` is passed to `split_at`, which takes a byte index | "éaaa" gets the payload after "é" instead of after "éa"; "ああ" panics (`EmbedAsWrittenPanics`) | Split after ⌊count/2⌋ characters | high, not executed | Steganography.EmbedAsWrittenMisplaced | Steganography.DetectEmbed |
| src/steganography/mod.rs:31-35 | One `exec` of the "g" regex yields only the first match, so the loop at lines 49-55 sees one run | encode(h1) + " " + encode(h2) is detected as [h1] | Decode every run, in order | medium, not executed | Steganography.DetectFirstOnly | Steganography.DetectAllTwoPayloads |
