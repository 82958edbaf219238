# go-hdb: a verified model of its protocol core

go-hdb is a client for the SAP HANA SQL command network protocol. This project models the parts of it
that compute: how numbers, dates and text become bytes, how messages are framed and parameters laid
out, how large objects are streamed, how bulk operations are cut into server calls, how SQL scripts are
cut into statements. For each part the model states what the code is for and proves it for all inputs,
all servers or all interleavings. The reader, the writer and the server are byte sequences or functions.

The modules follow the source:

| module | source | subject |
|---|---|---|
| `Bytes`, `Pow10` | | little-endian integers, powers of ten |
| `Utf8`, `Cesu8`, `Cesu8Text` | `driver/unicode/cesu8` | UTF-8, CESU-8, the transformers and sizes |
| `LobRead`, `LobWrite` | `lob.go`, `session.go` | streaming of large objects in both directions |
| `Decimal`, `DecimalWire`, `DecimalFields` | `decimal.go`, `encode.go`, `decode.go` | decimals and fixed decimals |
| `Headers`, `Framing` | `headers.go`, `protocol.go` | message framing, writer and reader |
| `FieldValues`, `Fields`, `Parameters` | `field.go`, `parameter.go`, `encode.go`, `decode.go` | parameters and the two passes over them |
| `Requests` | `session.go` | the request that executes a statement, from arguments to reader |
| `Bulk`, `Batches`, `BulkExec` | `convert.go`, `stmt.go` | bulk execution, packages, batches |
| `ErrorRows`, `RowNumbers` | `protocol.go`, `error.go`, `rowsaffected.go` | row counts and the rows that errors name |
| `Julian`, `Datetime` | `julian.go`, `datetime.go` | day numbers and timestamp codes |
| `SqlText`, `SqlScript`, `SqlQuotes`, `SqlFragments` | `sqlscript/scan.go` | statements of a script, the scanner, its strings against those of SQL, and its use under bufio.Scanner |
| `Levenshtein` | `levenshtein.go` | edit distance |
| `KeyCache` | `auth/list.go` | the cache of derived keys |

CESU-8 is Unicode Technical Report #26, section 2; UTF-8 is section 3 of RFC 3629; surrogates are
section 2 of RFC 2781.

`dafny verify dfyconfig.toml` checks the whole project.

## Model

| member | source | states |
|---|---|---|
| `Utf8.DecodeEncoded` | driver/unicode/cesu8/cesu8.go:82-87 | decoding the UTF-8 bytes of a scalar value, whatever follows, yields that value and its width |
| `Utf8.DecodedIsEncoding` | driver/unicode/cesu8/cesu8.go:82-87 | every sequence that decodes without error is the encoding of the value it decodes to, and no surrogate |
| `Utf8.Utf8Digits` | driver/unicode/cesu8/cesu8.go:10-26 | the bytes of UTF-8 by the groups of six bits of the code point |
| `Utf8.Replaced` | driver/unicode/cesu8/cesu8.go:49-52 | a surrogate is written as U+FFFD |
| `Utf8.UnitsOfRune` | driver/unicode/cesu8/cesu8.go:53-60 | the units of a supplementary rune are h and l exactly when r == 0x10000 + 0x400 * (h - 0xD800) + (l - 0xDC00) within the ranges of surrogates |
| `Utf8.PairOfUnits` | driver/unicode/cesu8/cesu8.go:70-79 | a pair of units is decoded to a supplementary rune exactly when it is the units of that rune |
| `Utf8.UnitsOrdered` | driver/unicode/cesu8/cesu8.go:53-60 | supplementary runes are ordered as their units |
| `Cesu8.Size` | driver/unicode/cesu8/cesu8.go:29-37 | the loop computes the CESU-8 size of the bytes rune by rune, invalid bytes counted as the replacement rune |
| `Cesu8.StringSize` | driver/unicode/cesu8/cesu8.go:40-46 | the same for the runes of a string |
| `Cesu8.InvalidByteSize` | driver/unicode/cesu8/cesu8.go:29-46 | a byte that starts no rune counts as the replacement rune |
| `Cesu8.SupplementaryBytes` | driver/unicode/cesu8/cesu8.go:49-62 | the six bytes of a supplementary rune by the groups of 4, 6, 4 and 6 bits of r - 0x10000 |
| `Cesu8.SupplementaryRead` | driver/unicode/cesu8/cesu8.go:70-87 | these six bytes are read as that rune, whatever follows |
| `Cesu8.GrinningFace` | driver/unicode/cesu8/cesu8.go:49-79 | U+1F600 is ED A0 BD ED B8 80, and D83D DE00 is U+1F600 |
| `Cesu8.TransformLoop` | driver/unicode/cesu8/encoding.go:59-105 | reading from src and writing to dst piece by piece yields the outcome of an unlimited run cut at the room of dst, at a rune boundary, also when dst and src are one array and no step writes more than it reads |
| `Cesu8.RunIsPrefixOfFull` | driver/unicode/cesu8/encoding.go:59-105 | limited room only cuts the unlimited run short, at a rune boundary, and six bytes of room always make progress |
| `Cesu8.ShrinkingFits` | driver/unicode/cesu8/encoding.go:128-182 | a transformer that never grows its input needs no more room than the input, so decoding in place is decoding |
| `Cesu8.ToUtf8Shrinks` | driver/unicode/cesu8/encoding.go:128-182 | the decoder never writes more than it reads, so that j <= i throughout |
| `Cesu8.EncoderTransform` | driver/unicode/cesu8/encoding.go:59-105 | Encoder.Transform is the run of the encoding step over src |
| `Cesu8.DecoderTransform` | driver/unicode/cesu8/encoding.go:128-182 | Decoder.Transform is the run of the decoding step over src, also with dst and src the same buffer |
| `Cesu8Text.EncodeText` | driver/unicode/cesu8/encoding.go:59-105 | on the UTF-8 of every text the encoder emits exactly its CESU-8 and consumes everything |
| `Cesu8Text.EncodeCut` | driver/unicode/cesu8/encoding.go:59-105 | at a rune that is cut off the encoder has emitted the text before it; it waits for more input or, at its end, fails |
| `Cesu8Text.AcceptedIsText` | driver/unicode/cesu8/encoding.go:59-105 | whatever the encoder accepts is the UTF-8 of a text |
| `Cesu8Text.AcceptedIff` | driver/unicode/cesu8/encoding.go:59-105 | the encoder accepts valid UTF-8 and nothing else |
| `Cesu8Text.SizesAgree` | driver/unicode/cesu8/cesu8.go:29-46 | Size and StringSize of a text are the length of its CESU-8 |
| `Cesu8Text.DecodeCut` | driver/unicode/cesu8/encoding.go:128-182 | decoding the first c code units of a text yields the UTF-8 of its whole runes among them and leaves half a surrogate pair unread |
| `Cesu8Text.WholeRunesIsLongest` | driver/unicode/cesu8/encoding.go:128-182 | that prefix of whole runes is the longest one; two units always complete a rune |
| `Cesu8Text.DecodeText` | driver/unicode/cesu8/encoding.go:128-182 | on the CESU-8 of every text the decoder emits exactly its UTF-8, with and without atEOF |
| `Cesu8Text.RoundTrip` | driver/unicode/cesu8/encoding.go:59-182 | decoding what the encoder emits for a text gives back its UTF-8 and consumes everything, with and without atEOF |
| `Cesu8Text.Encoder.CESU8Bytes` | driver/internal/protocol/encoding/encode.go:220-235 | through a scratch buffer of at least six bytes the output is that of one unlimited run, with an error exactly for invalid UTF-8 |
| `LobRead.CountChars` | driver/internal/protocol/lob.go:203-210 | the loop counts runes, those of four bytes twice |
| `LobRead.CharCountIsUnits` | driver/internal/protocol/lob.go:203-210 | on a text that count is the number of UTF-16 code units, the unit of the server |
| `LobRead.CharChunk` | driver/internal/protocol/lob.go:189-216 | a chunk of n units from a rune boundary adds the UTF-8 of the runes it completes, moves the offset by their units, and moves it at all if n >= 2 |
| `LobRead.OneUnitProgress` | driver/internal/protocol/lob.go:189-216 | a reply of a single unit makes progress exactly when that unit is no half of a surrogate pair |
| `LobRead.DefaultDecoderFits` | driver/unicode/cesu8/encoding.go:128-182 | the default decoder shrinks and decodes runes, as the streaming of every character LOB asks of its transformer |
| `LobRead.LobOutDescr.WriteChunk` | driver/internal/protocol/lob.go:189-216 | the chunk, decoded in place, appends its complete runes and reports their units |
| `LobRead.LobOutDescr.Write` | driver/internal/protocol/lob.go:257-267 | one reply is written and the offset moves on, unless it was the last |
| `LobRead.LobOutDescr.ReadLob` | driver/session.go:692-716 | against every server that returns two units or the flagged tail, the loop ends with the whole content written, and before each request the offset is the number of units written |
| `LobRead.LobOutDescr.Scan` | driver/internal/protocol/lob.go:218-255 | the chunk that came with the row and the requested rest are exactly the content, for every binary LOB and every valid UTF-16 LOB |
| `LobWrite.LobInDescr.FetchNext` | driver/internal/protocol/lob.go:102-116 | takes the next chunkSize bytes or the rest, and flags the last chunk exactly when less than chunkSize bytes were left |
| `LobWrite.OptionBits` | driver/internal/protocol/lob.go:24-28 | bit 1 of the options says that data are included, bit 2 that they are the last; bit 0 is never set |
| `LobWrite.Compact` | driver/session.go:792-800 | removes the finished descriptors from the slice in place and in order |
| `LobWrite.WriteRounds` | driver/session.go:741-801 | terminates; on success every LOB is stored completely under its id; against a server that answers with the unfinished ids in request order there is never an id mismatch |
| `LobWrite.Pair` | driver/session.go:723-739 | pairs the unfinished LOBs with the ids in order; panics exactly when there are fewer ids than unfinished LOBs |
| `LobWrite.WriteLobs` | driver/session.go:719-803 | the whole of writeLobs: success against a conforming server, content appended completely, panic exactly when ids are missing, and with unfinished LOBs success only if there are as many ids |
| `LobWrite.UploadRecord` | driver/session.go:454-500 | from the readers on: the record carries the first chunk of every LOB, the unfinished LOBs are exactly those of at least chunkSize bytes in order, a finished LOB is its first chunk, and what the server holds under the id of an unfinished one is the whole content of its reader; error, panic and success conditions |
| `Decimal.Digits10` | driver/internal/protocol/encoding/decimal.go:58-70 | the digit count of a positive number; for a negative one the starting guess |
| `Decimal.ConvertRatToDecimal` | driver/internal/protocol/encoding/decimal.go:79-162 | for x > 0 the number rounded half up to the given digits or to multiples of 10^minExp, normalised, with exact notExact, overflow and underflow flags; for x < 0 the truncated number in units of the guessed exponent |
| `Decimal.OverflowCondition` | driver/internal/protocol/encoding/decimal.go:121-147 | the rounded value reaches 10^(digits + maxExp) exactly when the code sets the overflow flag |
| `Decimal.OverflowIff` | driver/internal/protocol/encoding/decimal.go:121-147 | a positive number overflows exactly when, rounded half up in units of 10^maxExp, it has more than the given digits |
| `Decimal.ExponentUnique` | driver/internal/protocol/encoding/decimal.go:94-109 | the leading exponent is determined by the number |
| `Decimal.NormalUnique` | driver/internal/protocol/encoding/decimal.go:151-159 | a number has one form whose trailing zeros are stripped as far as maxExp allows |
| `Decimal.TruncatedCoefficient` | driver/internal/protocol/encoding/decimal.go:133-159 | the coefficient of a negative number is its truncated magnitude in units, stripped of trailing zeros as far as maxExp allows |
| `Decimal.NegativeRoundedIff` | driver/internal/protocol/encoding/decimal.go:133-149 | a negative number is rounded half up in magnitude exactly when less than half a unit is cut off |
| `Decimal.NegativeDigitsIff` | driver/internal/protocol/encoding/decimal.go:58-70 | the coefficient of a negative number keeps to the digits asked for exactly when its truncated magnitude has no more digits before trailing zeros, as many of these as maxExp allows to strip |
| `Decimal.NegativeIsNotRounded` | driver/internal/protocol/encoding/decimal.go:137-149 | -2/3 to one digit becomes -0.6 |
| `Decimal.NegativeKeepsTooManyDigits` | driver/internal/protocol/encoding/decimal.go:58-70 | -12 keeps the coefficient -12 when one digit is asked for |
| `Decimal.GuessedExponent` | driver/internal/protocol/encoding/decimal.go:58-70 | the guessed exponent of a negative number is at most two below the true one |
| `Decimal.DecimalToRatValue` | driver/internal/protocol/encoding/decimal.go:164-183 | convertDecimalToRat yields m * 10^exp |
| `Decimal.ConvertRatToFixed` | driver/internal/protocol/encoding/decimal.go:185-222 | half-up rounding of r * 10^scale for r >= 0, truncation for r < 0, overflow exactly from 10^prec on |
| `Decimal.FixedToRatValue` | driver/internal/protocol/encoding/decimal.go:224-233 | convertFixedToRat yields m * 10^-scale |
| `DecimalWire.EncodeDecimal` | driver/internal/protocol/encoding/encode.go:142-169 | the 16 bytes of coefficient, exponent and sign, also for coefficients that do not fit |
| `DecimalWire.DecodeDecimal` | driver/internal/protocol/encoding/decode.go:186-227 | the decimal of any 16 bytes: null, unsupported, or sign, 113-bit coefficient and exponent |
| `DecimalWire.DecodedIff` | driver/internal/protocol/encoding/decode.go:186-227 | the bytes of (m, exp) are read back as (m, exp) exactly for coefficients below 2^113 |
| `DecimalWire.SpecialBits` | driver/internal/protocol/encoding/decode.go:193-199 | 16 bytes are null exactly with bits 4, 5 and 6 of the last byte set, and unsupported exactly with bits 5 and 6 but not 4 |
| `DecimalWire.OneOnTheWire` | driver/internal/protocol/encoding/encode.go:142-169 | the numbers that 1 and -1 are written as |
| `DecimalWire.DecimalRoundTrip` | driver/internal/protocol/encoding/encode.go:142-169 | encoder and decoder together return (m, exp) exactly for coefficients below 2^113, never null |
| `DecimalWire.EncodeFixed` | driver/internal/protocol/encoding/encode.go:172-214 | two's complement in 8, 12 or 16 bytes for every number that fits |
| `DecimalWire.DecodeFixed` | driver/internal/protocol/encoding/decode.go:230-265 | the signed number of 8, 12 or 16 bytes |
| `DecimalWire.FixedRoundTrip` | driver/internal/protocol/encoding/encode.go:172-214 | decoding the encoded number returns it exactly for every m in [-2^(8n-1), 2^(8n-1)) |
| `DecimalWire.PrecisionFits` | driver/internal/protocol/encoding/encode.go:439-454 | numbers of up to 18, 28 and 38 digits fit 8, 12 and 16 bytes |
| `DecimalFields.DecimalField` | driver/internal/protocol/encoding/encode.go:457-476 | the field is refused exactly on overflow, zero on underflow, and otherwise holds the bytes of the converted decimal |
| `DecimalFields.WrittenDetermined` | driver/internal/protocol/encoding/encode.go:457-476 | outcome, flags, coefficient and exponent are determined by the number |
| `DecimalFields.WrittenIff` | driver/internal/protocol/encoding/encode.go:457-476 | a number is refused exactly when it does not fit: by its rounded value if non-negative, by its guessed exponent if negative |
| `DecimalFields.PositiveReadBack` | driver/internal/protocol/encoding/decode.go:470-479 | a non-negative number is read back correctly rounded to 34 digits, as zero below 10^-6176 |
| `DecimalFields.NegativeReadBackIff` | driver/internal/protocol/encoding/decode.go:470-479 | a negative number is read back as its truncated decimal exactly when its magnitude in units, stripped of trailing zeros, is below 2^113 |
| `DecimalFields.NegativeFieldCorrupted` | driver/internal/protocol/encoding/encode.go:457-476 | -20000000000000000000000000000000001 has a coefficient that does not fit |
| `DecimalFields.FixedField` | driver/internal/protocol/encoding/encode.go:439-454 | refused exactly when the rounded number has more than prec digits; otherwise read back as that number |
| `Headers.Decoder.Skip` | driver/internal/protocol/encoding/decode.go:69-77 | advances by n bytes when they are there, otherwise to the end with an error |
| `Headers.DecodeMessageHeader` | driver/internal/protocol/headers.go:28-50 | reads back the header of the writer and stands behind it |
| `Headers.DecodeSegmentHeader` | driver/internal/protocol/headers.go:138-197 | reads back the header of a request, reply or error segment; fields that the kind does not have keep their value |
| `Headers.DecodePartHeader` | driver/internal/protocol/headers.go:274-294 | reads back a part header |
| `Headers.NumArgRoundTrip` | driver/internal/protocol/headers.go:251-270 | numArg inverts setNumArg up to 2^31 - 1 arguments |
| `Headers.MessageAt` | driver/internal/protocol/headers.go:28-36 | the fields of a message header by their offsets |
| `Headers.RequestAt` | driver/internal/protocol/headers.go:138-161 | the fields of a request segment header by their offsets |
| `Headers.ReplyAt` | driver/internal/protocol/headers.go:138-161 | the kind and the function code of a reply header by their offsets |
| `Headers.PartAt` | driver/internal/protocol/headers.go:274-282 | the fields of a part header by their offsets |
| `Framing.PadBytes` | driver/internal/protocol/protocol.go:32-37 | pads to a multiple of eight with less than eight bytes |
| `Framing.MessageSize` | driver/internal/protocol/protocol.go:400-408 | the announced size is that of the segment with all parts and paddings |
| `Framing.MessageLength` | driver/internal/protocol/protocol.go:393-479 | the message has as many bytes as its header announces, if every part keeps to its size |
| `Framing.MessageFramed` | driver/internal/protocol/protocol.go:393-479 | a message by its offsets: bytes 12 to 19 and 32 to 35 hold the length after the message header, one request segment of kind 1 at offset 0, and the i-th part on the next multiple of eight with kind, argument count, length, the number of bytes up to the end of the message, and its body |
| `Framing.Numbers` | driver/internal/protocol/messagetype.go:44-56 | which message types carry client info, and which part kinds the reader keeps to itself |
| `Framing.EncodeParts` | driver/internal/protocol/protocol.go:447-477 | emits all parts, the buffer size shrinking by the span of each; otherwise the parts before the first that cannot be sent and what that one wrote |
| `Framing.EncodeMessage` | driver/internal/protocol/protocol.go:393-479 | succeeds exactly within the limits and when every part encodes; then the bytes of the message, the remaining buffer size ending at 0; what is written otherwise, in every case |
| `Framing.Writer.WriteMessage` | driver/internal/protocol/protocol.go:393-479 | as EncodeMessage, with the same condition for success and the fields of MessageFramed in the bytes written; the client info goes first in the first message that may carry it, and never again |
| `Framing.Writer.Write` | driver/internal/protocol/protocol.go:385-391 | as WriteMessage, and a failure is remembered |
| `Framing.ReadBody` | driver/internal/protocol/protocol.go:157-192 | whatever is read of a part, its whole buffer is consumed |
| `Framing.ReadParts` | driver/internal/protocol/protocol.go:222-279 | every part of a segment is shown with its kind, argument count and bytes, and the reader stays aligned |
| `Framing.SkipPaddingLastPart` | driver/internal/protocol/protocol.go:144-154 | skips what the message announced and the parts did not take |
| `Framing.IterateParts` | driver/internal/protocol/protocol.go:198-288 | on a message of the writer followed by other bytes: every part is shown, to the callback or, errors and row counts, to the reader itself, exactly 32 + varPartLength bytes are consumed, whatever is read of each part |
| `Fields.IndRoundTrip` | driver/internal/protocol/encoding/encode.go:241-255 | the decoder reads the length that the encoder wrote, in one, three or five bytes, and never null |
| `Fields.DecodeInd` | driver/internal/protocol/encoding/decode.go:290-304 | the length indicator at the front of the input |
| `Fields.DecodeLIBytes` | driver/internal/protocol/encoding/decode.go:307-315 | bytes written with a length indicator are read back and nothing more is consumed |
| `Fields.TextSizeExact` | driver/internal/protocol/encoding/field.go:73-82 | text that is accepted has exactly the size computed for it |
| `Fields.KindFormSize` | driver/internal/protocol/parameter.go:178-230 | a value is encoded in as many bytes as prmSize says |
| `Fields.KindEncodableIff` | driver/internal/protocol/parameter.go:232-294 | a value is refused exactly when it is not encodable: text that is no UTF-8, data above 2^31 - 1 bytes, digits that are not hexadecimal, numbers out of range |
| `Fields.HexIff` | driver/internal/protocol/encoding/encode.go:518-535 | hexadecimal data is decoded exactly when it has an even number of digits and nothing else |
| `Fields.HexValueMeans` | driver/internal/protocol/encoding/encode.go:518-535 | every byte is made of two digits, the high one first |
| `Fields.HexDigitMeans` | driver/internal/protocol/encoding/encode.go:518-535 | which bytes are which hexadecimal digits |
| `Fields.IndBytes` | driver/internal/protocol/encoding/encode.go:241-255 | the length indicators around the limits 245 and 2^15 - 1 |
| `Fields.NumberCodes` | driver/internal/protocol/typecode.go:14-20 | the type codes of numbers are 1 to 7 |
| `Fields.StringCodes` | driver/internal/protocol/typecode.go:21-26 | those of strings are 8 to 13 |
| `Fields.DateCodes` | driver/internal/protocol/typecode.go:27-61 | those of dates and times are 14 to 16 and 61 to 64 |
| `Fields.LargeCodes` | driver/internal/protocol/typecode.go:38-46 | those of LOBs, booleans and further strings are 25 to 33 |
| `Fields.OtherCodes` | driver/internal/protocol/typecode.go:54-73 | the remaining type codes |
| `Fields.SentCodes` | driver/internal/protocol/typecode.go:101-128 | null sets the high bit of the code but for times of day; three LOB types are sent as NCLOB |
| `Fields.KindsMean` | driver/internal/protocol/parameter.go:178-230 | which types are text in CESU-8, bytes, hexadecimal digits, LOBs and decimals |
| `FieldValues.IntBack` | driver/internal/protocol/encoding/encode.go:332-352 | an integer is read back exactly if it is one of k bytes |
| `FieldValues.FloatBack` | driver/internal/protocol/encoding/decode.go:354-370 | the bits of a float are read back exactly if not all of them are set, which is null |
| `FieldValues.DateFieldBack` | driver/internal/protocol/encoding/decode.go:372-397 | a date is read back exactly if its year is from 0 to 16383 |
| `FieldValues.TimeFieldBack` | driver/internal/protocol/encoding/decode.go:399-421 | a time of day is read back to the millisecond |
| `FieldValues.TimestampFieldBack` | driver/internal/protocol/encoding/decode.go:424-431 | a timestamp is read back to the millisecond exactly if its year is from 0 to 16383 |
| `FieldValues.LeapDayAtNoon` | driver/internal/protocol/encoding/encode.go:380-410 | 2024-02-29 and 12:34:56.789 on the wire |
| `FieldValues.LongdateFieldBack` | driver/internal/protocol/encoding/decode.go:434-440 | a longdate field of the years 1 to 9999 is read back to 100 ns exactly off the ten skipped dates |
| `FieldValues.SeconddateFieldBack` | driver/internal/protocol/encoding/decode.go:443-449 | the same for seconddates, to the second |
| `FieldValues.DaydateFieldBack` | driver/internal/protocol/encoding/decode.go:452-458 | the same for daydates |
| `FieldValues.SecondtimeFieldBack` | driver/internal/protocol/encoding/decode.go:461-467 | a secondtime field is read back as the time of day |
| `Fields.PlainReadBack` | driver/internal/protocol/parameter.go:232-263 | a value of a fixed-width type is read back from its bytes exactly if the type holds it |
| `Fields.BooleanBytes` | driver/internal/protocol/encoding/encode.go:309-330 | false is 0, null 1 and true 2 |
| `Fields.KindReadBack` | driver/internal/protocol/parameter.go:264-290 | text, bytes, hexadecimal data and LOB headers are read back from their bytes |
| `Fields.EncodePrm` | driver/internal/protocol/parameter.go:232-294 | type code or null code, then bytes from which a reader gets the value, one byte more than prmSize; success exactly for encodable values |
| `Parameters.SizeAndView` | driver/internal/protocol/parameter.go:353-384 | the size of the part; the position set for every LOB |
| `Parameters.Encode` | driver/internal/protocol/parameter.go:400-429 | succeeds exactly when every argument is encodable, with the bytes of every parameter, row by row, each row followed by the first chunks of its LOBs |
| `Parameters.HasInLobMeans` | driver/internal/protocol/parameter.go:411-425 | first chunks are written exactly if some field is an input field of a LOB type |
| `Parameters.PartSize` | driver/internal/protocol/parameter.go:353-429 | both passes agree on the size |
| `Parameters.PartAt` | driver/internal/protocol/parameter.go:353-429 | every parameter and every first chunk is in the part at the offset computed for it |
| `Parameters.PlacedLast` | driver/internal/protocol/parameter.go:373-380 | the position of a LOB is that of its last place among the arguments |
| `Parameters.WritePart` | driver/internal/protocol/parameter.go:353-429 | for every grid of arguments encode succeeds exactly when every argument is encodable; it then writes exactly size() bytes, every parameter in its form at its offset, and every LOB shows a position at which its first chunk is, its own one unless the descriptor occurs again later |
| `Requests.ParameterPart` | driver/internal/protocol/parameter.go:350-429 | the input parameters as a message part: it encodes exactly when every argument is encodable, keeps to its announced size, has one argument per row and the layout of both passes |
| `Requests.SendAndRead` | driver/session.go:454-466 | from the arguments through the writer to the reader: success condition, every part shown as sent with the parameters at their offsets, and nothing beyond the message consumed |
| `Bulk.ConvertExecArgs` | driver/convert.go:138-179 | succeeds exactly for whole rows of convertible arguments, each of which it replaces by its conversion; lists the rows that end a package |
| `Bulk.ConvertAllMeans` | driver/convert.go:146-177 | a batch converts to c exactly if every argument is an unnamed input that its field converts, and c[k] is the converted value, a LOB with its first chunk, its rest and the exact last flag; it fails exactly if some argument does not |
| `Bulk.FlagsMean` | driver/convert.go:163-176 | a row is flagged exactly when it has a LOB whose last byte has not been read |
| `Bulk.ConvertConcat` | driver/convert.go:146-177 | the conversion of whole rows and of what follows them is independent |
| `Bulk.EndsArePackages` | driver/convert.go:174-176 | the listed rows cut the batch into non-empty packages of which only the last row may be incomplete |
| `Bulk.PackageInvariant` | driver/stmt.go:377-401 | the calls hand over all rows in order; every package has rows, only its last one may have LOB data left, and every package but the last ends in such a row |
| `Batches.Exec` | driver/stmt.go:380-401 | a batch is refused as a whole, or its packages are sent up to the first failure |
| `Batches.RunMeans` | driver/stmt.go:226-358 | over any list of batches: calls in order up to the first failure, the total the sum of the row counts of the successful calls, success exactly when nothing was refused and nothing failed |
| `Batches.RunStops` | driver/stmt.go:226-401 | no call follows one that failed, no batch one that was refused; unless a call failed, all calls of the batches before are made |
| `Batches.Conserved` | driver/stmt.go:226-401 | the calls for accepted batches hand over every argument, converted, once and in order |
| `Batches.AcceptedIff` | driver/convert.go:138-179 | batches of whole rows are accepted exactly when every argument can be converted |
| `Batches.HandedOver` | driver/stmt.go:226-401 | the same for a successful run |
| `Batches.Session.Exec` | driver/session.go:454-508 | one call: rows affected, success, and the statement numbers of its errors |
| `BulkExec.ExecMany` | driver/stmt.go:333-358 | calls, total and success are those of the run over the batches of bulkSize rows, up to the first failure; it succeeds exactly when every argument can be converted and no call fails, all arguments then handed over once and in order; with single packages, the k-th error of a call carries the number of the row of the bulk that is the k-th failed row of the call |
| `BulkExec.ManyHandsOver` | driver/stmt.go:343-352 | the batches of execMany hold every argument once and in order, at right offsets |
| `BulkExec.ManySizes` | driver/stmt.go:337-352 | every batch has bulkSize rows, but for the last one, which has a row at least |
| `BulkExec.ExecFct` | driver/stmt.go:226-274 | the same over the rows of a function; when it reports an error, over the complete batches before it, without success |
| `BulkExec.ExecSeq` | driver/stmt.go:276-327 | the same over the rows of an iterator up to the first with a wrong number of arguments; the offsets of the batches are right, so that errors name rows, exactly for bulk size 1 or at most bulkSize + 1 rows |
| `BulkExec.SeqHandsOver` | driver/stmt.go:287-324 | the batches of execSeq hold every row once and in order |
| `BulkExec.SeqOffsets` | driver/stmt.go:306-315 | the row offsets of execSeq are right exactly for bulk size 1 or at most bulkSize + 1 rows |
| `BulkExec.SeqOffsetsWrong` | driver/stmt.go:306-315 | four rows in bulks of two: row 3 is executed with offset 4 |
| `ErrorRows.Total` | driver/internal/protocol/rowsaffected.go:34-42 | the sum of the positive row counts |
| `ErrorRows.PositivesAdd` | driver/internal/protocol/rowsaffected.go:34-42 | every positive count is added once, wherever it is, and other counts add nothing |
| `ErrorRows.CountsExample` | driver/internal/protocol/rowsaffected.go:10-13 | the counts 3, -3, 2, -2, -3 affect five rows, and rows 1 and 4 failed |
| `ErrorRows.FailedMeans` | driver/internal/protocol/protocol.go:298-306 | the failed rows are listed once and in order |
| `ErrorRows.FailedHas` | driver/internal/protocol/protocol.go:298-306 | every failed row is listed |
| `ErrorRows.SetStmtNo` | driver/internal/protocol/error.go:149-153 | sets one statement number, if there is such an error |
| `ErrorRows.LinkErrors` | driver/internal/protocol/protocol.go:298-306 | the k-th error gets offset plus the index of the k-th failed row, the others keep theirs |
| `ErrorRows.Conclude` | driver/internal/protocol/protocol.go:289-315 | row count, failure and statement numbers of a reply |
| `RowNumbers.StatementNumbers` | driver/stmt.go:390-399 | with right batch offsets the statement numbers of a package are row numbers of the bulk exactly for the first package of its batch |
| `RowNumbers.SecondPackage` | driver/stmt.go:390-399 | two rows with unfinished LOBs: the second has row number 1 and is executed with offset 0 |
| `RowNumbers.RunNamesRows` | driver/stmt.go:226-358 | over a run of single packages every linked error names the row of the arguments whose conversion is the failed row |
| `Julian.DayToTimeValid` | driver/internal/protocol/julian/julian.go:32-48 | every day number from 0 on yields a date of the calendar in force |
| `Julian.DayRoundTrip` | driver/internal/protocol/julian/julian.go:13-48 | TimeToDay inverts DayToTime for every day number from 0 on |
| `Julian.DatesIncrease` | driver/internal/protocol/julian/julian.go:32-48 | dates increase strictly with the day number, also from 1582-10-04 to 1582-10-15 |
| `Julian.DateRoundTrip` | driver/internal/protocol/julian/julian.go:13-48 | DayToTime inverts TimeToDay on every date that exists |
| `Datetime.CodesInRange` | driver/internal/protocol/encoding/datetime.go:10-51 | from year 1 to 9999 all codes fit their types and lie below the codes of null |
| `Datetime.NullCodes` | driver/internal/protocol/encoding/field.go:20-25 | the codes of null follow those of the last instant of 9999 |
| `Datetime.FirstCodes` | driver/internal/protocol/encoding/datetime.go:10-51 | all codes count from the first instant of year 1 on |
| `Datetime.LongdateRoundTrip` | driver/internal/protocol/encoding/datetime.go:10-21 | a longdate is read back as the time to 100 ns exactly when the date is none of the ten skipped ones |
| `Datetime.SeconddateRoundTrip` | driver/internal/protocol/encoding/datetime.go:24-33 | a seconddate is read back as the time to the second, under the same condition |
| `Datetime.DaydateRoundTrip` | driver/internal/protocol/encoding/datetime.go:38-43 | a daydate is read back as its date, under the same condition, whether or not empty dates are null |
| `Datetime.SecondtimeRoundTrip` | driver/internal/protocol/encoding/datetime.go:46-51 | a secondtime is read back as the time of day |
| `Datetime.DayCodeRoundTrip` | driver/internal/protocol/encoding/datetime.go:38-43 | a day code survives decoding and encoding exactly when it is no 29 February that only the Julian calendar has |
| `Datetime.JulianLeapDayMoves` | driver/internal/protocol/encoding/datetime.go:38-43 | the day code of 1500-02-29 is read as 1500-03-01 and written as the next code |
| `Datetime.CodesOrdered` | driver/internal/protocol/encoding/datetime.go:19-33 | longdates are ordered as times in steps of 100 ns, seconddates in steps of 1 s |
| `SqlScript.Scanner.Scan` | sqlscript/scan.go:193-217 | what the split function yields is a statement: leading space and comment lines, then text up to the first separator outside strings; the token is that text without line ends, behind the comment lines if they are kept; at the end of the script it yields nothing only if there is no statement |
| `SqlScript.ScanIsToken` | sqlscript/scan.go:174-217 | the scan finds statements only, in terms of comment lines, strings and separators defined on their own |
| `SqlScript.TokenIsScanned` | sqlscript/scan.go:174-217 | at the end of the script it finds the statement if there is one |
| `SqlScript.StatementMeans` | sqlscript/scan.go:152-172 | scanStatement ends behind the first separator outside strings and collects all runes before it but line ends |
| `SqlScript.StatementFound` | sqlscript/scan.go:152-172 | the converse |
| `SqlQuotes.QuotingIff` | sqlscript/scan.go:127-150 | the scan takes the same runes for quoted as SQL does exactly if no string has a doubled quote other than in front of its end |
| `SqlQuotes.SqlStatements` | sqlscript/scan.go:127-172 | its statements are then those of SQL |
| `SqlQuotes.DoubledQuote` | sqlscript/scan.go:127-150 | of the script of one statement with a doubled quote in its string the scan finds no statement |
| `SqlScript.Scanner.ReadStatement` | sqlscript/scan.go:152-172 | scanStatement against its specification |
| `SqlScript.Scanner.ReadString` | sqlscript/scan.go:127-150 | scanString against its specification |
| `SqlScript.Scanner.ReadComment` | sqlscript/scan.go:93-125 | scanComment against its specification |
| `SqlFragments.Stable` | sqlscript/scan.go:174-217 | a token found before the end of the script is found identically on every extension of the data |
| `SqlFragments.Local` | sqlscript/scan.go:174-217 | the scan looks at no more than one byte after the statement |
| `SqlFragments.DriveTokens` | sqlscript/scan.go:193-217 | however the script is cut into reads, the tokens are its non-empty statements in order, and all of them if no statement with text follows an empty one |
| `SqlFragments.BytewiseTokens` | sqlscript/scan.go:193-217 | read byte by byte, no statement with text is ever lost |
| `SqlFragments.FragmentationIndependence` | sqlscript/scan.go:193-217 | every way of cutting the script into reads yields the same tokens exactly when no statement with text follows an empty one |
| `SqlFragments.LostStatement` | sqlscript/scan.go:193-217 | ";;a;" read at once yields nothing, read byte by byte yields "a" |
| `Levenshtein.Distance` | driver/internal/protocol/levenshtein/levenshtein.go:32-57 | the one-row loop computes the recursive edit distance |
| `Levenshtein.UpdateRow` | driver/internal/protocol/levenshtein/levenshtein.go:39-54 | one pass turns a row of the distance table into the next one, in place |
| `Levenshtein.ZeroIffEqual` | driver/internal/protocol/levenshtein/levenshtein.go:32-57 | the distance is zero exactly for equal words |
| `Levenshtein.Symmetric` | driver/internal/protocol/levenshtein/levenshtein.go:32-57 | the distance is symmetric |
| `Levenshtein.Triangle` | driver/internal/protocol/levenshtein/levenshtein.go:32-57 | the triangle inequality |
| `Levenshtein.PathBound` | driver/internal/protocol/levenshtein/levenshtein.go:32-57 | no sequence of single deletions, insertions and changes is shorter than the distance |
| `Levenshtein.ShortestPath` | driver/internal/protocol/levenshtein/levenshtein.go:32-57 | some sequence of single edits is as short |
| `Levenshtein.MinString` | driver/internal/protocol/levenshtein/levenshtein.go:20-30 | the first candidate at minimal distance |
| `KeyCache.InsertHolds` | driver/internal/protocol/auth/list.go:44-58 | an insertion keeps the ring at the last min(n, maxEntry) entries |
| `KeyCache.FindMeans` | driver/internal/protocol/auth/list.go:27-36 | find returns the value of the first key that compares equal |
| `KeyCache.List.Get` | driver/internal/protocol/auth/list.go:38-59 | without interference: a hit changes nothing, a miss computes and stores |
| `KeyCache.List.Compute` | driver/internal/protocol/auth/list.go:42-58 | the part under the write lock |
| `KeyCache.RunKeeps` | driver/internal/protocol/auth/list.go:27-59 | what every step of every interleaving keeps |
| `KeyCache.GetIsValueFn` | driver/internal/protocol/auth/list.go:27-59 | over every interleaving Get returns valueFn of its key, if keys that compare equal have equal values |
| `KeyCache.CacheHoldsLast` | driver/internal/protocol/auth/list.go:38-59 | over every interleaving the cache holds exactly the last min(n, maxEntry) inserted entries |

## Findings

Where the code does not meet a property, the model keeps the code as it is, gives an input, and states
exactly when the property holds.

- Negative decimals. `digits10` and the rounding test compare signed values, so a negative number is
  truncated in units of a guessed exponent. It is rounded half up exactly when less than half a unit is
  cut off (`Decimal.NegativeRoundedIff`; -2/3), keeps to its digits exactly when the truncated magnitude
  has no more of them before its trailing zeros (`Decimal.NegativeDigitsIff`; -12), and survives the wire exactly when its stripped magnitude is below
  2^113 (`DecimalFields.NegativeReadBackIff`; -20000000000000000000000000000000001).
- Row offsets of `execSeq`. The row counter is not reset after a batch, so the offsets are right exactly
  for bulk size 1 or at most bulkSize + 1 rows (`BulkExec.SeqOffsets`; four rows
  in bulks of two).
- Packages after the first. `exec` passes the offset of a batch on to all its packages, so statement
  numbers are row numbers exactly for the first package of a batch (`RowNumbers.StatementNumbers`;
  `RowNumbers.SecondPackage`).
- `writeLobs` checks `j > len(ids)` after the id slice may already be exhausted: it panics exactly when
  there are more unfinished LOBs than ids (`LobWrite.Pair`, `LobWrite.WriteLobs`).
- `exec` of the session writes LOBs only if the reply has ids. If the server assigns none, unfinished LOBs
  keep their first chunk and the call succeeds all the same (`LobWrite.UploadRecord`).
- Empty statements. An empty statement is a nil token, which ends bufio.Scanner at the end of the file:
  the tokens of a script are independent of how it is read exactly when no statement with text follows
  an empty one (`SqlFragments.FragmentationIndependence`; ";;a;").
- Doubled quotes. `scanString` reads the second quote of a pair like the first, so a string ends behind a
  pair. Strings are those of SQL exactly if none has a doubled quote other than in front of its end
  (`SqlQuotes.QuotingIff`); of `'a''b';` no statement is found (`SqlQuotes.DoubledQuote`).
- Years in dates. `decodeDate` keeps 14 bits of the year, so that DATE and TIMESTAMP values are read back
  exactly for the years 0 to 16383 (`FieldValues.DateFieldBack`, `FieldValues.TimestampFieldBack`).
- Skipped dates. The ten dates from 1582-10-05 to 1582-10-14, which a time can hold and the calendar does
  not have, are the only ones that are not read back (`Datetime.LongdateRoundTrip` and the others).
- Julian-only leap days. A day code survives decoding and encoding exactly when it is no 29 February of
  a century year that only the Julian calendar has, because such a date is normalised to 1 March
  (`Datetime.DayCodeRoundTrip`; 1500-02-29).
- A reply of one code unit that is half a surrogate pair makes no progress (`LobRead.OneUnitProgress`), so
  the character LOB result assumes replies of two units or the flagged tail.
- A LOB descriptor that occurs twice among the arguments of a part shows the position of its last place;
  the bytes there are its first chunk all the same (`Parameters.WritePart`).

## Left out

- Decimal.Digits10: the float64 quotient that estimates a digit count is taken as exact.
- DecimalWire.EncodeFixed: big.Word has 64 bits; the renormalisation on 32-bit words is not modelled.
- Framing.IterateParts: without protocol traces; of the reading of error and row count parts only the number
  of bytes (`ErrorRows.Conclude` models what is done with them).
- LobRead.LobOutDescr.Scan: the writer of the caller does not fail; replies carry the id that was requested.
- LobWrite.WriteLobs: the descriptors of a write request are values, only the readers are objects; the
  server stores what it is sent.
- LobWrite.UploadRecord: the LOBs of one record; a server that assigns as many ids as there are unfinished
  LOBs stores their first chunks under them.
- Batches.Session.Exec: the outcome of streaming the LOBs of the last record is part of the given reply.
- Bulk.ConvertExecArgs: a LOB descriptor is a value of the argument that owns it, and the conversion of a
  value for a field is a given function; each batch is an array of its own, where the source converts
  slices of one array.
- BulkExec.ExecMany: at least one field and a bulk size of at least 1.
- Fields.EncodePrm: a value has the Go type that the conversion leaves for its type code, since others panic,
  as does hexadecimal data of odd length; the codes of dates are read back for the years 1 to 9999; floats are given by their IEEE 754 bits; years from -4799 on.
- SqlFragments.DriveTokens: bufio.Scanner without its limit on the size of a token.
- Levenshtein.MinString: words of less than 2^63 - 1 runes; case folding is a given function on words.
- KeyCache.List.Get: maxEntry is at least 1; valueFn is a function of the key.
- Julian.DayToTimeValid: negative day numbers.
- Error handlers of the transformers other than the default one, which rejects invalid input.
- Result sets, authentication, connection handling, tracing, metrics and DSN parsing.
