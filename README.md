# Skytable Node.js client codec, modelled in Dafny

This project models the codec at the core of the Skytable Node.js client. It covers:

- encoding query parameters and framing a query request (`encodeParams`, the request frame in `createSkytable`);
- the authentication handshake and the server's reply to it;
- the connection settings (`Config`);
- the `Query` builder;
- parsing of row payloads and formatting of responses (`parseSkytableData`, `formatResponse`);
- the incremental response decoder `decode`, which resumes with `next(chunk)` as more bytes arrive.

The modules are:

| module | file | models |
|---|---|---|
| `Wire` | wire.dfy | bytes, `Buffer.subarray`, the newline search, the decimal text of numbers, `readInt8` |
| `JsValues` | jsvalues.dfy | JavaScript values. An integer becomes a double by rounding to nearest, ties to even (`Number(bigint)`, `Number(text)`). `BigInt(text)` is also here. |
| `ClientConfig` | config.dfy | `Config`, `getClientHandshake`, `readBufferToHandshakeRes` |
| `Protocol` | protocol.dfy | the parameter encoder, `parseSkytableData`, `formatRow`, `formatResponse`, `bufferToHandshakeResult` |
| `Skytable` | skytable.dfy | the request frame `S<len>\n<qlen>\n<query><params>` and its UTF-8 bytes |
| `Queries` | query.dfy | class `Query`, whose `pushParam` appends to its parameter list in place |
| `DecodeSpec` | decode_spec.dfy | `decode` as a state machine: `Resume` is one `decodeResponse` call on the decoder's closure state (`Machine`) |
| `Decode` | decode.dfy | class `Decoder`, whose fields are the closure variables of `decode`. Each method is proved to do what the matching `DecodeSpec` function says. |
| `DecodeProperties` | decode_props.dfy | what `decodeResponse` does, proved for every state it can be called in |
| `DecodeExamples` | decode_examples.dfy | lemmas that follow whole responses through the decoder model, including the multi-chunk cases |

The decoder is modelled as the source runs it, quirks included. Several quirks are proved as lemmas:

- **`next()` returns a stale snapshot.** It returns the object `decode` returned. That object's `value`, `cursor` and `isPending` were copied when it was made, so a number that completes after `next()` is never seen through it (`StaleSnapshot`).
- **Array values are shared.** When the value is an array, the returned object holds the same array the decoder keeps filling. A row cut off mid-column is first reported complete and empty, and later shows its columns (`RowAcrossChunks`).
- **A null column does not move the cursor.** A nested decoder's cursor starts after its tag byte, and a null sets nothing past it, so the cursor stays on the null's tag and a null column is read twice (`NullReadTwice`). Bool, number and binary items also move it by less than their length; a string item moves it by its whole length, tag byte included (`StringColumn`).
- **A list element starts on the wrong byte.** After the size line the list cursor moves one byte, not to the end of the line (`ListExample`).
- **A multirow response never yields a row.** A complete multirow column is written into a row that does not exist, which throws (`DecodeSpec.RowsFill`, `MultirowStaysEmpty`).
- **A one-digit row count ends a multirow response at once.** The column line is looked for from the row count's newline, which is found again, so the column count is read from empty text as 0 and the response completes as `[]` (`MultirowOneDigitRowCount`).
- **An error response reads its code from the second byte after the tag.** The code is `subarray(1, 2)` of the source, so an error response of two bytes throws a range error (`ErrorsThrow`).
- **A row or list whose first line is cut off never completes.** A failed newline search caches -1 as the offset, which counts as cached, so no later call searches again (`ListOffsetStuck`, `RowOffsetStuck`).
- **A string size that is not a number restarts the row payload.** In `parseSkytableData` the end index `sizeOffset + 1 + size` is NaN, `subarray` reads NaN as 0, and the parse starts over at the size line: `[13, 0, 10, 0]` gives an empty string and two nulls (`MalformedSizeRestarts`, `MalformedSizeExample`).

The object identity of arrays is modelled by a counter `gen` of the arrays made so far. The snapshot `decode` returned shows the decoder's current array exactly while no new array has been made, and its own value once one has (`DecodeSpec.View`, `RowAcrossChunks`).

Three facts about the wire format, as the code writes it:

- **Handshake preamble.** The handshake starts with 6 bytes: `'H'` and five zero bytes (`ClientConfig.ClientHandshake`).
- **Worked request frame.** For `"SELECT * FROM t WHERE id = ?"` with the number `1`, the frame is `S34\n28\n…\x031\n`. The frame length counts the query-length line. A JavaScript `number` gets tag `0x03`, and a `bigint` gets `0x02` (`Skytable.ExampleFrame`).
- **Null and undefined parameters.** These are encoded as the character `'0'` (`Protocol.OtherParamLayouts`).

## Model

| member | source | states |
|---|---|---|
| `Wire.Subarray` | src/decode.ts:26 | `subarray(start, end)` is the slice when the indices are in range, and empty when the range is inverted |
| `Wire.IndexOf` | src/protocol.ts:55-62 | the first index at or after `from` that holds the newline, or -1 exactly when there is none |
| `Wire.IntText` | src/protocol.ts:34 | the text a number contributes to `join` reads back as that integer and holds no newline |
| `Wire.Latin1` | src/decode.ts:64 | bytes read as text one character per byte, same length, each character the byte's code |
| `Wire.Latin1Bytes` | src/decode.ts:64 | one byte per character, which `Latin1` reads back as the same text |
| `Wire.Int8` | src/decode.ts:25 | `readInt8`: the byte as a signed value in [-128, 128) congruent to it mod 256 |
| `Wire.ScanValueDigits` | src/decode.ts:102 | reading digits left to right gives the decimal value of the run, and fails exactly when some character is not a digit |
| `Wire.DecimalRoundTrip` | src/protocol.ts:29 | a length written as decimal text reads back as that length |
| `JsValues.NumberOfInt` | src/protocol.ts:38 | `Number(bigint)` is an integral double or an infinity of the same sign; a non-negative integer stays non-negative |
| `JsValues.NumberOfIntNearest` | src/protocol.ts:38 | beyond 2^53 an integer becomes the nearest multiple of the spacing of doubles at its magnitude, at most half a spacing away, with an even multiple on a tie, and keeps its sign |
| `JsValues.NumberOfIntExact` | src/protocol.ts:38 | integers up to 2^53 in magnitude become doubles exactly |
| `JsValues.NumberOfIntRounds` | src/protocol.ts:38 | 2^53 + 1 becomes 2^53 |
| `JsValues.NumberOfDecimal` | src/decode.ts:76 | in the model, `Number(text)` is the rounded value of a signed decimal text and NaN for any other text |
| `JsValues.BigIntOf` | src/decode.ts:82 | in the model, `BigInt(text)` succeeds exactly on signed decimal text, with its exact value |
| `JsValues.BigIntOfIntText` | src/decode.ts:82 | `BigInt` reads the text `String` writes for any integer back exactly, at every magnitude |
| `JsValues.BigIntAgreesWithNumber` | src/decode.ts:76-82 | in the model, `BigInt` and `Number` accept the same texts, and there `Number` is `BigInt`'s exact value rounded to a double |
| `JsValues.BigIntOfExamples` | src/decode.ts:82 | leading zeros are read (`"-0012"` is -12), empty text is 0, and a lone `-` or a decimal point throws |
| `JsValues.AddInt` | src/protocol.ts:111 | an integer plus a number is the exact sum while that is a safe integer; NaN stays NaN and an infinity stays itself |
| `ClientConfig.NewConfig` | src/Config.ts:45-50 | the constructor keeps username, password, host and port as the getters return them |
| `ClientConfig.NewConfigDefaults` | src/Config.ts:45 | without host and port a configuration points at localhost:2003 |
| `ClientConfig.ClientHandshake` | src/Config.ts:4-17 | the frame starts with the 6-byte preamble and its length is preamble, two length lines and both credentials |
| `ClientConfig.LengthLine` | src/Config.ts:4-17 | a length line of digits followed by a newline reads back as its value and leaves the rest untouched |
| `ClientConfig.HandshakeRoundTrip` | src/Config.ts:4-17 | the frame is read back as exactly the username and password it carries |
| `ClientConfig.ReadHandshakeReply` | src/Config.ts:19-26 | the code is the first byte as a character and the decimal text of the next two; `msg` is the fourth byte when there is one |
| `ClientConfig.SuccessCodeIff` | src/Config.ts:19-26 | the code reads `H00` exactly when the reply starts with the bytes 0x48 0 0 |
| `Protocol.EncodeParam` | src/protocol.ts:28-49 | one parameter's encoding is never empty; it throws exactly for an unsupported type, with that type's name |
| `Protocol.EncodeParams` | src/protocol.ts:20-53 | when `encodeParams` throws, it throws an unsupported-type error |
| `Protocol.EncodeParamsAppend` | src/protocol.ts:20-53 | encoding a concatenation is the concatenation of the encodings, and fails exactly when a part fails |
| `Protocol.EncodeParamsFails` | src/protocol.ts:42-49 | `encodeParams` throws exactly when some parameter is of an unsupported type |
| `Protocol.StringParamRoundTrip` | src/protocol.ts:28-29 | a string parameter is tag 0x06 followed by a length-prefixed text that reads back as the string |
| `Protocol.NumberParamLayout` | src/protocol.ts:30-36 | a number gets tag 0x04 exactly when it is a finite non-integer, 0x03 otherwise, then its text and a newline |
| `Protocol.IntegralParamRoundTrip` | src/protocol.ts:34 | an integral number's text reads back as that integer, sign included |
| `Protocol.BigIntParamExact` | src/protocol.ts:37-38 | a bigint up to 2^53 in magnitude is tag 0x02 and text that reads back exactly |
| `Protocol.BigIntParamRounds` | src/protocol.ts:38 | the bigint 2^53 + 1 is sent as the text of 2^53 |
| `Protocol.OtherParamLayouts` | src/protocol.ts:40-49 | true is 0x01 0x01, false is 0x01 '0', null and undefined are '0', other types throw |
| `Protocol.FirstSplitOffset` | src/protocol.ts:55-62 | -1 exactly when the buffer has no newline, otherwise the index of its first newline |
| `Protocol.ReadInt16BE` | src/protocol.ts:92 | `readInt16BE` lies in [-2^15, 2^15) and equals the two big-endian bytes mod 2^16 |
| `Protocol.ReadBigInt64BE` | src/protocol.ts:88 | `readBigInt64BE` lies in [-2^63, 2^63) and equals the eight big-endian bytes mod 2^64 |
| `Protocol.AsIndex` | src/protocol.ts:112-114 | a number used as a `subarray` index: an integer is itself, NaN lands on index 0, and an infinity lands on the start or the end |
| `Protocol.ParseSkytableData` | src/protocol.ts:68-121 | a payload parses to at most one value per byte |
| `Protocol.ParseFixed` | src/protocol.ts:79-100 | a fixed-width tag yields at least one value, at most one per byte after the tag |
| `Protocol.ParseString` | src/protocol.ts:104-115 | the string case yields at most one value more than there are bytes after the tag |
| `Protocol.StringEnd` | src/protocol.ts:110-111 | the end index is the newline index plus 1 plus the size while that is a safe integer; a size that is not a number makes it index 0 |
| `Protocol.ParseSized` | src/protocol.ts:112-114 | the first value is the string from just past the size line to the end index, the rest is the parse of the bytes from the end index on, and it fails exactly when that parse does |
| `Protocol.ParseNext` | src/protocol.ts:64-66 | `parseNext` puts its value first and succeeds exactly when the parse of the rest does |
| `Protocol.MalformedSizeRestarts` | src/protocol.ts:104-115 | a size line whose `Number` is NaN gives an empty string, then the parse of the whole payload from the size line again |
| `Protocol.MalformedSizeExample` | src/protocol.ts:104-115 | `[13, 0, 10, 0]` parses as an empty string and two nulls |
| `Protocol.ParseSkytableDataShapes` | src/protocol.ts:68-121 | an empty payload is no values, a null skips its tag and one more byte, and tags above 14 throw |
| `Protocol.UInt16Overlap` | src/protocol.ts:83-84 | tag 3 reads bytes 2 and 3 after the tag but skips two, so the low byte is read again as the next tag |
| `Protocol.StringItem` | src/protocol.ts:104-115 | a size-prefixed string item whose end index is a safe integer is its body followed by the parse of what comes after |
| `Protocol.StringPayload` | src/protocol.ts:105-114 | the string case reads exactly `size` bytes after the size line and resumes after them |
| `Protocol.SizedString` | src/protocol.ts:105-114 | a size line without a newline whose `Number` is the body's length yields exactly that body, then the parse of what follows it |
| `Protocol.SizeLineValue` | src/protocol.ts:110 | `Number` of a decimal size line is that size |
| `Protocol.AsciiBytes` | src/protocol.ts:110 | the bytes of a digit text, with no newline, read back as that text |
| `Protocol.FormatRow` | src/protocol.ts:123-132 | a row without a newline has no values; otherwise it has fewer values than bytes |
| `Protocol.FormatResponse` | src/protocol.ts:138-158 | a formatted response has a known tag; it succeeds exactly when the tag is not ERROR, carries a message exactly when it fails, and carries raw bytes exactly for MULTIROW |
| `Protocol.FormatResponseCases` | src/protocol.ts:138-158 | empty and row responses succeed with their values; an error response fails; unknown tags throw |
| `Protocol.HandshakeResult` | src/protocol.ts:175-186 | the handshake resolves exactly when the reply starts with 0x48 0 0, and a rejection never carries the success code |
| `Skytable.RequestFrame` | src/skytable.ts:31-34 | the frame exists exactly when the parameters encode; it starts with `S` and is longer than the query and parameters together |
| `Skytable.RequestBuffer` | src/skytable.ts:31-35 | the buffer exists exactly when the parameters encode; it starts with the byte `S` and has at least as many bytes as the frame has characters |
| `Skytable.RequestData` | src/skytable.ts:32-33 | the data part is the query-length line, the query and the parameters, and its length is the sum of theirs |
| `Skytable.FrameRoundTrip` | src/skytable.ts:31-34 | a request frame reads back as its query and its encoded parameters |
| `Skytable.FrameParse` | src/skytable.ts:33-34 | the outer length line and the query-length line delimit the query and the parameters exactly |
| `Skytable.SizedRoundTrip` | src/skytable.ts:34 | a length-prefixed text reads back whole |
| `Skytable.QueryField` | src/skytable.ts:33 | the first line of the data is the query's length, followed by the query and then the parameters |
| `Skytable.NoParamsEndsWithQuery` | src/skytable.ts:31-34 | without parameters the frame ends with the query |
| `Skytable.Utf8Char` | src/skytable.ts:35 | a character is 1 to 4 bytes, and 1 exactly when it is ASCII, that byte being its code |
| `Skytable.Utf8Append` | src/skytable.ts:35 | the UTF-8 bytes of a concatenation are the concatenation of the bytes |
| `Skytable.Utf8Length` | src/skytable.ts:35 | a text has at least as many UTF-8 bytes as characters, equally many exactly when it is ASCII |
| `Skytable.Utf8Ascii` | src/skytable.ts:35 | ASCII text is encoded one byte per character |
| `Skytable.AsciiText` | src/skytable.ts:35 | ASCII text as bytes, each byte the character's code |
| `Skytable.AsciiByteCount` | src/skytable.ts:34-35 | for ASCII queries and parameters the length written in the frame is the byte length of the data |
| `Skytable.NonAsciiUndercount` | src/skytable.ts:34-35 | with a non-ASCII query the length written counts characters, fewer than the bytes sent |
| `Skytable.ExampleFrame` | src/skytable.ts:31-35 | the frame of `SELECT * FROM t WHERE id = ?` with parameter 1 is `S34\n28\n…\x031\n` for a number and `…\x021\n` for a bigint |
| `Skytable.SingleParam` | src/protocol.ts:25-52 | encoding a one-parameter list is encoding that parameter |
| `Queries.Query.constructor` | src/query.ts:13-16 | a new query holds the base text and no parameters |
| `Queries.Query.GetQuery` | src/query.ts:21-23 | the base query text |
| `Queries.Query.GetParams` | src/query.ts:29-31 | the encoded parameters pushed so far, oldest first |
| `Queries.Query.GetParamCount` | src/query.ts:37-39 | the number of parameters pushed |
| `Queries.Query.GetQueryLength` | src/query.ts:46-48 | the length of the base query |
| `Queries.Query.PushParam` | src/query.ts:55-57 | the parameter's encoding is appended and nothing else changes; an unsupported parameter throws and changes nothing |
| `DecodeSpec.Init` | src/decode.ts:24-37 | the tag is the first byte read signed, the source is the rest, the cursor is 0, the value is undefined and pending |
| `DecodeSpec.SetValue` | src/decode.ts:39-43 | `setValue` sets the value, advances the cursor by the offset and clears pending; every other field, the buffer and the caches included, is unchanged |
| `DecodeSpec.SplitSearched` | src/decode.ts:45-54 | a failed newline search sets pending and changes nothing else |
| `DecodeSpec.SizeOfDigits` | src/decode.ts:102 | a size prefix of plain digits is their decimal value, and any other prefix is a `MalformedSize` error |
| `DecodeSpec.SetNewArray` | src/decode.ts:146 | `setValue([], offset)` sets a new empty array and moves the cursor by the offset |
| `DecodeSpec.Resume` | src/decode.ts:172-273 | a `decodeResponse` call that returns keeps the tag, the original buffer and the source |
| `DecodeSpec.DecodeValue` | src/decode.ts:69-170 | a `decodeValue` call that returns keeps the tag, the original buffer and the source |
| `DecodeSpec.RowsFill` | src/decode.ts:246-262 | the multirow loops come down to the first row's column loop, since no row moves the cursor: nothing happens, or it throws, writing into a missing row |
| `DecodeSpec.NestedIsFirstCall` | src/decode.ts:155 | a nested decode of the rest of the source is a first decode call on that slice |
| `DecodeSpec.View` | src/decode.ts:276-286 | the returned object's cursor and pending flag never change; a non-array value never changes; an array value is the decoder's current value while no new array has been made, and the snapshot's own once one has |
| `Decode.Decoder.constructor` | src/decode.ts:24-37 | the decoder's fields start as `DecodeSpec.Init` says |
| `Decode.Decoder.Decode` | src/decode.ts:276-280 | `decode` throws on an empty buffer and otherwise runs `decodeResponse` once, as `FirstCall` says; the object returned holds the value, cursor and pending flag then |
| `Decode.Decoder.Next` | src/decode.ts:281-286 | `next` appends the chunk and runs `decodeResponse` as `NextCall` says; the returned object is left as it was |
| `Decode.Decoder.SetValue` | src/decode.ts:39-43 | the new state is `DecodeSpec.SetValue` of the old |
| `Decode.Decoder.GetNextSplitOffset` | src/decode.ts:45-54 | the loop returns the first newline at or after the cursor and sets pending when there is none |
| `Decode.Decoder.DecodeResponse` | src/decode.ts:172-273 | the state change or exception is `DecodeSpec.Resume`'s |
| `Decode.Decoder.DecodeValue` | src/decode.ts:69-170 | the state change or exception is `DecodeSpec.DecodeValue`'s |
| `Decode.Decoder.ParseNumber` | src/decode.ts:57-67 | the state change or exception is `DecodeSpec.ParseNumber`'s |
| `Decode.Decoder.ResumeBinary` | src/decode.ts:95-111 | the state change is `DecodeSpec.ResumeBinary`'s |
| `Decode.Decoder.ResumeString` | src/decode.ts:112-132 | the state change is `DecodeSpec.ResumeString`'s |
| `Decode.Decoder.BinaryAt` | src/decode.ts:102-110 | once the size line ends at `sizeOffset`, the state change or exception is `DecodeSpec.BinaryAt`'s |
| `Decode.Decoder.StringAt` | src/decode.ts:119-131 | once the size line ends at `sizeOffset`, the state change or exception is `DecodeSpec.StringAt`'s |
| `Decode.Decoder.CurrentArray` | src/decode.ts:153 | returns `value \|\| []`, counting a new array when it makes one |
| `Decode.Decoder.Fill` | src/decode.ts:154-162 | the loop decodes elements as `DecodeSpec.Fill` says, moving the cursor and nothing else |
| `Decode.Decoder.ResumeList` | src/decode.ts:133-140 | the state change or exception is `DecodeSpec.ResumeList`'s |
| `Decode.Decoder.ListSized` | src/decode.ts:142-151 | the state change or exception is `DecodeSpec.ListSized`'s |
| `Decode.Decoder.StoreListSize` | src/decode.ts:144-150 | the list size is cached, a size of 0 sets a new empty array past the size line, and a first call steps the cursor, as `DecodeSpec.StoreListSize` says |
| `Decode.Decoder.FillInto` | src/decode.ts:152-165 | the state change or exception is `DecodeSpec.FillInto`'s |
| `Decode.Decoder.ResumeRow` | src/decode.ts:177-183 | the state change or exception is `DecodeSpec.ResumeRow`'s |
| `Decode.Decoder.RowSized` | src/decode.ts:185-207 | the state change or exception is `DecodeSpec.RowSized`'s |
| `Decode.Decoder.StoreRowSize` | src/decode.ts:186-191 | the column count is cached, the cursor set past its line, and a count of 0 sets a new empty array, as `DecodeSpec.StoreRowSize` says |
| `Decode.Decoder.ResumeRows` | src/decode.ts:210-216 | the state change or exception is `DecodeSpec.ResumeRows`'s |
| `Decode.Decoder.RowsCounted` | src/decode.ts:218-228 | the state change or exception is `DecodeSpec.RowsCounted`'s |
| `Decode.Decoder.StoreRowCount` | src/decode.ts:219-228 | the row count is cached; a count of 0 sets a new empty array past the count line, otherwise a first call steps the cursor, as `DecodeSpec.StoreRowCount` says |
| `Decode.Decoder.RowsColumnLine` | src/decode.ts:230-235 | the state change or exception is `DecodeSpec.RowsColumnLine`'s |
| `Decode.Decoder.RowsColumns` | src/decode.ts:236-264 | the state change or exception is `DecodeSpec.RowsColumns`'s |
| `Decode.Decoder.FillRows` | src/decode.ts:246-262 | the two multirow loops end or throw as `DecodeSpec.RowsFill` says |
| `DecodeProperties.NumericPending` | src/decode.ts:57-63 | a numeric value with no newline after the cursor stays pending and nothing else changes |
| `DecodeProperties.NumericCompletion` | src/decode.ts:57-67 | otherwise the value is the text up to the newline parsed by the tag's parser, and the cursor moves past the newline; a bad bigint throws |
| `DecodeProperties.BigIntTagsExact` | src/decode.ts:81-90 | the 64-bit tags read any integer's text back exactly |
| `DecodeProperties.NumberTagsRound` | src/decode.ts:75-88 | the other integer tags read exactly up to 2^53 and round 2^53 + 1 to 2^53 |
| `DecodeProperties.FixedSizeValues` | src/decode.ts:71-74 | null and empty complete in place; bool is whether the byte at the cursor is non-zero, and throws past the end |
| `DecodeProperties.BinaryPendingIff` | src/decode.ts:95-111 | binary is pending exactly until the newline index plus the size is within the source, then it is the slice from the cursor to there |
| `DecodeProperties.StringPendingIff` | src/decode.ts:112-132 | a string is pending exactly until the newline index plus 2 plus the size is within the source, then its body is read from the original buffer |
| `DecodeProperties.BinaryAtOutcome` | src/decode.ts:102-110 | once the size line is found, pending exactly when the newline index plus the size is beyond the source, and otherwise the bytes from the cursor to there |
| `DecodeProperties.StringAtOutcome` | src/decode.ts:119-129 | once the size line is found, pending exactly when the end is beyond the source |
| `DecodeProperties.MalformedSizeThrows` | src/decode.ts:102 | a size prefix that is not plain digits makes binary and string throw |
| `DecodeProperties.EmptyList` | src/decode.ts:143-147 | a size line of 0 gives a complete empty list with the cursor two past the newline |
| `DecodeProperties.FillKeeps` | src/decode.ts:153-162 | the element loop keeps the elements already there, appends in order, and never goes past the size |
| `DecodeProperties.EmptyRow` | src/decode.ts:185-191 | a column count of 0 gives a complete empty row with the cursor just past the count line |
| `DecodeProperties.RowFilling` | src/decode.ts:177-207 | on every call, the first included, a row starts from `value \|\| []`, keeps the columns it already has and never holds more than its column count; a call that finds no count line leaves the value |
| `DecodeProperties.FillIntoKeeps` | src/decode.ts:152-165 | filling `value \|\| []` keeps its items as a prefix and stops at `size` items |
| `DecodeProperties.ListSizeCached` | src/decode.ts:135-149 | once the list size is cached the size line is not read again and the cursor is not moved |
| `DecodeProperties.RowSizeCached` | src/decode.ts:179-188 | once the column count is cached the cursor goes back to just past the count line on every call |
| `DecodeProperties.ListOffsetStuck` | src/decode.ts:135-140 | a list whose first newline search failed caches -1 and never searches again, whatever arrives |
| `DecodeProperties.RowOffsetStuck` | src/decode.ts:179-183 | a row whose first newline search failed caches -1 and never searches again, whatever arrives |
| `DecodeProperties.MultirowOneDigitRowCount` | src/decode.ts:210-264 | a multirow response whose row count is one digit completes as an empty array with cursor 1 |
| `DecodeProperties.MultirowStaysEmpty` | src/decode.ts:210-265 | a multirow value is only ever undefined or an empty array |
| `DecodeProperties.RowsCountedEmpty` | src/decode.ts:218-265 | after the row count, the value stays undefined or an empty array |
| `DecodeProperties.RowsColumnLineEmpty` | src/decode.ts:230-265 | after the column line, the value stays undefined or an empty array |
| `DecodeProperties.ErrorsThrow` | src/decode.ts:266-269 | an error response throws with its signed code; an unknown tag throws |
| `DecodeExamples.RowExample` | src/decode.ts:177-209 | the row `2\n`, `"test"`, null decodes to ["test", null] in one call, with cursor 9 |
| `DecodeExamples.ListExample` | src/decode.ts:133-166 | a one-element list `1\n` then null comes back complete and empty |
| `DecodeExamples.StaleSnapshot` | src/decode.ts:276-286 | after `next` completes "42", the object returned still reads undefined and pending |
| `DecodeExamples.RowAcrossChunks` | src/decode.ts:177-209 | a row cut off mid-column is first complete and empty, then shows both columns through the same array |
| `DecodeExamples.NullReadTwice` | src/decode.ts:196-204 | a two-column row holding one null byte decodes as two nulls |

## Left out

- Sockets and I/O are not modelled: `connection.ts`, `Config.connect`, `connectTSL`, `connectionWrite` and the `await` in `createSkytable`. The response `formatResponse` receives is a parameter.
- `console.log` and `console.error` calls are left out.
- `Queries.Query.GetParams`: returns the parameter list as a value. `getParams` returns the query's own `params` array, so a caller who changes that array changes the query; this aliasing is not modelled.
- Floating point is not evaluated. `Number.parseFloat` and `readFloatBE` results are carried as their bytes (`FloatText`, `FloatBits`). A non-integral number parameter is carried as its text.
- `JsValues.NumberOfDecimal`: `Number(text)` is modelled for plain signed decimal text only. A leading `+`, `Infinity` and `-Infinity`, surrounding whitespace, `0x`/`0o`/`0b` prefixes, exponent and fraction forms all give NaN in the model, while JavaScript reads them as numbers.
- `JsValues.BigIntOf`: surrounding whitespace, a leading `+` and `0x`/`0o`/`0b` prefixes make `BigIntOf` fail in the model, while JavaScript's `BigInt` accepts them. A 64-bit tag whose text has such a form throws in the model and not in JavaScript.
- `JsValues.AddInt`: a non-integral number is carried as its text, so adding it is not modelled; the string size in `parseSkytableData` is never one, since `Number` of a size line is integral, NaN or an infinity in the model.
- `String(n)` for integers of 10^21 and above uses exponent notation in JavaScript. `IntText` always writes plain digits.
- `DecodeSpec.SizeOf`, `DecodeSpec.SizeOfDigits`: a size prefix that is not plain digits is an error (`MalformedSize`). In JavaScript, `Number` of such a prefix is NaN, and the comparisons that follow then behave in ways the model does not follow.
- `Protocol.StringItem`, `Protocol.StringPayload`: these require the end index, the size line's length plus 1 plus the body's length, to be at most 2^53, so that the sum that makes it is exact.
- `Skytable.Utf8`: string lengths are counted in code points, not UTF-16 code units. A character outside the Basic Multilingual Plane counts 1 in the model and 2 in JavaScript. Lone surrogates are not modelled.
- The decoder's state after it throws is not specified. A caller that catches and calls `next` again is outside the model.
- The bytes a UTF-8 string holds are kept undecoded (`Str`). `toString('utf-8')` replacement characters are not modelled.
- `src/Query.ts` and `src/config.ts` duplicate `query.ts` and `Config.ts` and are not part of this model. The `getClientHandshake` in `src/protocol.ts:160-173` is the same function as the one in `src/Config.ts:4-17`, and `ClientConfig.ClientHandshake` models both. The `encodeParam` that `query.ts` imports is modelled by `Protocol.EncodeParam`, the callback of `encodeParams`.
- `formatRows` returns its argument unchanged. `FormatResponse` carries that argument as raw bytes.
- Object identity is modelled only for the decoder's array value (`gen`). The nested decoder objects that the list and row loops create are discarded by the source at once, and are modelled as values (`DecodeSpec.Nested`).
