# AMQP 1.0 symbol codec

A Dafny model of `SymbolEncoding`, the codec that azure-amqp uses for the
AMQP 1.0 `symbol` primitive (OASIS AMQP 1.0, Part 1, section 1.6.21).

A symbol is null or an ASCII string. The wire forms are:
- **null**: the single byte 0x40 (section 1.6.1).
- **sym8**: 0xa3, a one-byte length, then the content.
- **sym32**: 0xb3, a four-byte big-endian length, then the content.
- **array element** (section 1.2): a four-byte length and the content, with no format code of its own. The array header carries one shared code; the codec's own code is sym32.

The short form is chosen exactly when the content is at most 255 bytes.

The model has six modules:

- `Wrappers`: `Option` and `Result`.
- `Bytes`: the `byte` type and the big-endian four-byte layout that `AmqpBitConverter` writes (`UIntBytes`) and reads (`UIntAt`). It also defines `HoldsAt(bytes, offset, image)`, "these bytes sit here", with generic lemmas for concatenated images.
- `Ascii`: the two `Encoding.ASCII` conversions the codec calls. `GetBytes` maps ASCII text to one byte per character. `GetString` maps bytes back, turning a byte above 0x7f into '?'. `GetBytesInto` writes into a caller's array.
- `ByteBuffers`: `ByteBuffer`, a class whose written bytes (`bytes`) and read cursor (`offset`) the methods update.
  - Writes append.
  - Reads consume from the cursor.
  - A read past the written bytes fails with `BufferUnderrun`.
- `AmqpEncoding`: the format codes, the `FixedWidth` widths, and the helpers the codec calls (`GetEncodeWidthBySize`, `ReadFormatCode`, `ReadCount`, `EncodeNull`).
- `SymbolEncoding`: the codec.
  - The pure size functions.
  - Byte-sequence specifications of what is written (`Encoded`, `ObjectEncoded`, `ArrayEncoded`) and read (`DecodeAt`, `DecodeArrayAt`).
  - The buffer methods proved against them: `Encode`, `Decode`, the two private length-prefix helpers, `EncodeObject`, `DecodeObject`, `GetArrayEncodeSize`, `EncodeArray`, `DecodeArray`.
  - Lemmas: layout, width boundary, decoding with a known or unknown code, rejection of invalid codes, the scalar and array round trips, and the 21-character example.

Exceptions are `Result` values: `BufferUnderrun` from the buffer and `InvalidFormatCode` from `ReadCount`. A decode on a malformed or short stream returns the error and does not need a precondition.

## Model

| member | source | states |
|---|---|---|
| SymbolEncoding.GetValueSize | src/Encoding/SymbolEncoding.cs:18-21 | The ASCII byte count of a non-null symbol is its character count; null gives FixedWidth.Null (0). |
| SymbolEncoding.GetEncodeSize | src/Encoding/SymbolEncoding.cs:23-32 | Null takes 1 byte. Otherwise the size is 1 code byte, plus a width of 1 when the content is at most 255 characters and 4 beyond, plus the content. |
| SymbolEncoding.EncodeSizeBoundary | src/Encoding/SymbolEncoding.cs:25-31 | Null is 1 byte and its image is [0x40]. "" is 2 bytes. 255 content bytes give 257 bytes under sym8; 256 give 261 under sym32. |
| SymbolEncoding.Encoded | src/Encoding/SymbolEncoding.cs:36-45 | The image Encode writes is exactly GetEncodeSize bytes long. |
| SymbolEncoding.EncodedLayout | src/Encoding/SymbolEncoding.cs:42-45 | The first byte is sym8 exactly when the content is at most 255 bytes, else sym32. It is followed by the content length (one byte, or big-endian four bytes) and then the content bytes unchanged. |
| SymbolEncoding.LengthPrefixed | src/Encoding/SymbolEncoding.cs:98-110 | The private helpers' image is the width (1 or 4) plus the data length long, and ends with the data. |
| SymbolEncoding.Encode | src/Encoding/SymbolEncoding.cs:34-47 | The buffer's bytes become the old bytes followed by Encoded(value): only the null code for null, else code, length and content. |
| SymbolEncoding.WriteLengthPrefixed | src/Encoding/SymbolEncoding.cs:93-96 | Appends the whole array's bytes behind their length prefix. |
| SymbolEncoding.WriteLengthPrefixedRange | src/Encoding/SymbolEncoding.cs:98-110 | Appends the first encodedDataLength bytes behind a prefix: one byte (the length cast to byte) for width 1, four big-endian bytes otherwise. |
| SymbolEncoding.DecodeBody | src/Encoding/SymbolEncoding.cs:56-61 | The body under a code fails with InvalidFormatCode exactly when the code is neither sym8 nor sym32. On success the symbol is non-null and the decode stops after the count's width plus the content length, within the bytes. |
| SymbolEncoding.DecodeAt | src/Encoding/SymbolEncoding.cs:49-62 | A successful decode consumes at least one byte and stays within the bytes. Under a given code it always yields a non-null symbol. Decoded text is ASCII. |
| SymbolEncoding.Decode | src/Encoding/SymbolEncoding.cs:49-62 | Returns DecodeAt's symbol and moves the cursor to where DecodeAt stops; on failure it returns DecodeAt's error. |
| SymbolEncoding.DecodeReadsFormatCode | src/Encoding/SymbolEncoding.cs:51-54 | With code 0 the code byte is read first. The null code gives the null symbol after one byte; any other code decodes as if it had been given. |
| SymbolEncoding.DecodeKnownCode | src/Encoding/SymbolEncoding.cs:56-59 | With a known code there is no code read and no null check. The result is InvalidFormatCode exactly when the code is neither sym8 nor sym32. Otherwise the count is the ubyte (sym8) or big-endian uint (sym32) at the offset, and the result is exactly that many content bytes after it, read as text. A count that does not fit, or more content than the bytes hold, gives BufferUnderrun. |
| SymbolEncoding.InvalidCodeRejected | src/Encoding/SymbolEncoding.cs:51-57 | A code that is none of null, sym8 or sym32 is rejected with InvalidFormatCode when it is given (and non-zero), and when it is read from the stream, a 0x00 byte included. |
| SymbolEncoding.LengthPrefixedRoundTrip | src/Encoding/SymbolEncoding.cs:56-59 | A length prefix of either width followed by ASCII content decodes, under the matching code, to that content. It stops right after the content. |
| SymbolEncoding.DecodeEncoded | src/Encoding/SymbolEncoding.cs:49-62 | Decoding Encode's bytes with code 0 gives back the same symbol, null included, and stops after exactly GetEncodeSize bytes. |
| SymbolEncoding.EncodeDecodeRoundTrip | src/Encoding/SymbolEncoding.cs:34-62 | Encode into an empty buffer, then Decode with code 0: the symbol comes back and the cursor has advanced by GetEncodeSize. |
| SymbolEncoding.AnnotationSymbolExample | src/Encoding/SymbolEncoding.cs:42-45 | "amqp.annotation.x-opt" encodes as 0xa3, 0x15 and its 21 ASCII bytes, 23 bytes in all. |
| SymbolEncoding.AnnotationSymbolDecodeExample | src/Encoding/SymbolEncoding.cs:49-62 | Those 23 bytes decode from offset 0 with code 0 back to the same symbol and stop at 23. |
| SymbolEncoding.GetObjectEncodeSize | src/Encoding/SymbolEncoding.cs:64-74 | In array mode 4 + the content length; otherwise GetEncodeSize. |
| SymbolEncoding.ObjectEncoded | src/Encoding/SymbolEncoding.cs:76-86 | EncodeObject's image is exactly GetObjectEncodeSize bytes long. |
| SymbolEncoding.EncodeObject | src/Encoding/SymbolEncoding.cs:76-86 | In array mode it appends a four-byte length and the content with no format code; otherwise it appends what Encode appends. |
| SymbolEncoding.DecodeObject | src/Encoding/SymbolEncoding.cs:88-91 | Same result and cursor as Decode. |
| SymbolEncoding.ArraySize | src/Encoding/SymbolEncoding.cs:116-122 | The sum of the elements' content lengths: no element's content is longer than the whole. |
| SymbolEncoding.GetArrayEncodeSize | src/Encoding/SymbolEncoding.cs:112-123 | The loop's sum is ArraySize: the content lengths added up, with no per-element prefixes. |
| SymbolEncoding.ArrayEncoded | src/Encoding/SymbolEncoding.cs:125-143 | EncodeArray's image is ArraySize plus 4 bytes per element long. |
| SymbolEncoding.ArrayEncodedStep | src/Encoding/SymbolEncoding.cs:139-141 | One more loop turn appends that element's four-byte length and its content. |
| SymbolEncoding.EncodeArray | src/Encoding/SymbolEncoding.cs:125-143 | The buffer gains ArrayEncoded(list): every element, in order, as a four-byte length followed by exactly its content. The reused scratch array is always large enough, and its stale bytes never reach the output. |
| SymbolEncoding.ArrayEncodedConcat | src/Encoding/SymbolEncoding.cs:125-143 | EncodeArray's bytes are the elements' array-mode images, one after another. |
| SymbolEncoding.DecodeArrayAt | src/Encoding/SymbolEncoding.cs:145-153 | A successful array decode yields exactly count symbols and ends within the bytes. |
| SymbolEncoding.DecodeArray | src/Encoding/SymbolEncoding.cs:145-153 | Returns a fresh array whose contents are DecodeArrayAt's symbols, and leaves the cursor where DecodeArrayAt stops; on failure it returns the error of the first element that fails. |
| SymbolEncoding.DecodeArrayErrPersists | src/Encoding/SymbolEncoding.cs:148-151 | Once an element fails, every longer array decode fails with the same error. |
| SymbolEncoding.DecodeArrayStep | src/Encoding/SymbolEncoding.cs:148-151 | One more successful scalar decode extends a successful array decode by that element. |
| SymbolEncoding.DecodeSequential | src/Encoding/SymbolEncoding.cs:148-151 | If element i decodes at ends[i] and stops at ends[i + 1], the array decodes to the list and stops at the last end. |
| SymbolEncoding.DecodeArrayElement | src/Encoding/SymbolEncoding.cs:80 | One array-mode element image decodes under sym32 to that element and stops right after it. |
| SymbolEncoding.DecodeElements | src/Encoding/SymbolEncoding.cs:145-153 | Element images laid end to end decode, under sym32, to the elements in order. |
| SymbolEncoding.DecodeArrayEncoded | src/Encoding/SymbolEncoding.cs:145-153 | Decoding EncodeArray's bytes under the codec's own code (sym32, lines 13-14) gives back the elements in order and stops right after them. |
| SymbolEncoding.ArrayRoundTrip | src/Encoding/SymbolEncoding.cs:125-153 | EncodeArray into an empty buffer, then DecodeArray of as many elements under sym32: the list comes back, and the cursor has advanced by the content plus 4 bytes per element. |
| AmqpEncoding.GetEncodeWidthBySize | src/Encoding/SymbolEncoding.cs:31 | The width is 1 exactly when the size is at most 255, and 4 otherwise. |
| AmqpEncoding.CountAt | src/Encoding/SymbolEncoding.cs:57 | InvalidFormatCode exactly when the code is neither of the two given. A count is one byte under the short code and four under the long code, and never runs past the bytes. |
| AmqpEncoding.ReadCount | src/Encoding/SymbolEncoding.cs:57 | Returns CountAt's count and moves the cursor past it, or returns its error. |
| AmqpEncoding.ReadFormatCode | src/Encoding/SymbolEncoding.cs:51 | Consumes one byte and returns it; at the end of the bytes it fails with BufferUnderrun. |
| AmqpEncoding.EncodeNull | src/Encoding/SymbolEncoding.cs:38 | Appends the null code alone. |
| ByteBuffers.ByteBuffer.WriteUByte | src/Encoding/SymbolEncoding.cs:44 | Appends one byte. |
| ByteBuffers.ByteBuffer.WriteUInt | src/Encoding/SymbolEncoding.cs:106 | Appends the four big-endian bytes of the value. |
| ByteBuffers.ByteBuffer.WriteBytes | src/Encoding/SymbolEncoding.cs:109 | Appends the given range of the array. |
| ByteBuffers.ByteBuffer.ReadUByte | src/Encoding/SymbolEncoding.cs:51 | Returns the byte at the cursor and moves past it; at the end of the bytes it fails with BufferUnderrun and leaves the cursor. |
| ByteBuffers.ByteBuffer.ReadUInt | src/Encoding/SymbolEncoding.cs:57 | Returns the big-endian uint at the cursor and moves past its four bytes; with fewer than four left it fails with BufferUnderrun and leaves the cursor. |
| ByteBuffers.ByteBuffer.Complete | src/Encoding/SymbolEncoding.cs:59 | Moves the cursor by n when n bytes remain, else fails with BufferUnderrun and leaves it. |
| Bytes.UIntAtUIntBytes | src/Encoding/SymbolEncoding.cs:106 | Reading four bytes where WriteUInt's bytes for n sit gives back n. |
| Ascii.GetBytes | src/Encoding/SymbolEncoding.cs:42 | One byte per character, each below 0x80. |
| Ascii.GetString | src/Encoding/SymbolEncoding.cs:58 | count bytes give count characters, all ASCII. |
| Ascii.GetStringOfGetBytes | src/Encoding/SymbolEncoding.cs:58 | Wherever the bytes of ASCII text sit, decoding them gives the text back. |
| SymbolEncoding.ToArray | src/Encoding/SymbolEncoding.cs:42 | A fresh array holding exactly the given bytes, as the byte[] that GetBytes returns (also at line 80). |
| Ascii.GetBytesInto | src/Encoding/SymbolEncoding.cs:139 | Writes the text's bytes at the front of the scratch array, leaves the rest alone, and returns the text's length. |

## Left out

- ByteBuffer capacity, growth and pooling are not modelled. The written bytes are one growing sequence and the cursor an index into it. ByteBuffer.cs and AmqpBitConverter.cs are not part of this model.
- Encoding.ASCII on non-ASCII text substitutes '?' when encoding. Encode instead requires ASCII text, so encoding is the identity on content. Decoding does model the '?' substitution for bytes above 0x7f.
- Encode: a content length of 2^31 or more, where the `int` arithmetic and the `(uint)` cast would overflow, is excluded by precondition.
- GetArrayEncodeSize: the `int` sum at line 119 can overflow when the content lengths add up to 2^31 or more. The model sums in unbounded `nat`, so that wrap-around is not modelled.
- Decode: a four-byte count of 2^31 or more becomes a negative `int` in the code. The model keeps it unsigned, so such a count fails with BufferUnderrun unless that many bytes follow.
- Decode: the code reads the text (GetString on the underlying array) before Complete checks the count. The model checks first. A count beyond the written bytes fails with BufferUnderrun either way, but the exception type .NET raises on that path is not modelled.
- Decode: the cursor position after a failed decode is left unspecified. Only the error is stated.
- Null elements in arrays, on which GetByteCount throws, are excluded by precondition (`ArrayElement`).
- ReadFormatCode is modelled as a single-byte read; extended two-byte format codes are not modelled.
- FixedWidth.Null is taken as 0 and FixedWidth.NullEncoded as 1, since FixedWidth.cs is not part of this model.
- The PrimitiveEncoding base class, virtual dispatch, and the `object`/`IList` casts are runtime plumbing with no logic of their own. The overrides are modelled as plain methods on typed arguments.
- DecodeArray: the count is a `nat`. A negative `int` count, on which `new AmqpSymbol[count]` (line 147) throws, is excluded by the type.
- DecodeArray receives the element count from its caller; reading the array header (size, count, element code) belongs to the array codec, which is not part of this model.
