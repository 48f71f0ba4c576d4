# Verified model of libca's codecs, ciphers and data structures

libca is a C++17 infrastructure library. This project models the parts of it that carry
hard properties over unbounded inputs and proves them in Dafny:

- the HTTP/1 codec: a reader that is a nine-state machine over a refillable buffer, and the
  two printers that feed it (sections 6.3 and 7.1 of RFC 9112);
- the CSV reader and writer (section 2 of RFC 4180);
- the HTTP URL value type with percent coding and normalisation (sections 5.2.4 and 6.2.2 of
  RFC 3986);
- the built-in AES (FIPS 197) and DES (FIPS 46-3) with their chaining modes and padding;
- incremental SHA-256, SHA-384, SHA-512 (FIPS 180-4) and SHA-3 (FIPS 202);
- the glob matcher with its one-level scan, the LRU cache, the GB18030 range table, the
  format-preserving INI document, Base64, Base32, varints and zigzag.

Code that computes is modelled by functions on sequences. Code that works by updating state
is modelled by classes and loops in place, each proved against such a function; what the
library promises is then proved of the functions, for all inputs and all runs. Functions that
take text or blocks apart are tied to a description that puts them together (a grammar, the
laws of an operation, or the equations of the standard), so that what they compute is fixed
without reference to how.

## How it is laid out

| modules, one to a file | contents |
|---|---|
| Text, Numerals, Octets, Sequences | byte strings, numerals in two bases, bytes as numbers |
| HttpFields, HttpFraming, HttpWire, HttpReader | header fields, framing decision, what a byte string means as a message, the reader class |
| HttpPrint, HttpWriter, HttpRoundTrip, HttpExchange | what is written for a message, the writer classes, parsing what was printed, whole exchanges and runs |
| HttpGrammar, HttpPrefix, HttpSending | the accepted bytes as a grammar, messages cut short, the accepted messages and their literal bytes |
| Csv, CsvGrammar | the CSV machine and printer, and the accepted texts as a grammar |
| Percent, PercentGrammar, DotSegments, Url, UrlGrammar | URLs, their parts, and the accepted texts as grammars |
| CryptoTypes, BlockModes | chaining modes over any block function |
| AesTables, AesField, AesPolynomials, Aes, AesBlock, WordBits, AesKeys, AesModes | tables and field, what they mean, the AES cipher and its inverse, in place, key expansion, entry points |
| AesStandard, DesStandard, ModeStandard | both ciphers against FIPS 197 and FIPS 46-3 on bytes and bits, up to the entry points |
| DesTables, Des, DesModes | the DES cipher and its inverse, entry points and padding |
| HashStream, Sha2, Sha2Hashers, Sha3 | buffering, padding and digests over abstract compression functions |
| Glob; Recency, LruCaches; Gb18030; IniRecords, IniDocuments | the glob matcher, the cache, the range table, the INI document |
| DigitGroups, BaseText, BaseStandard, BaseCodecs; Varint, Zigzag, SignedVarint | Base64 and Base32; variable-length integers |

The connection under the HTTP reader is a byte sequence, a schedule of fragment sizes and
interruptions, and a fate at its end (clean end, I/O error, over-long read); the writer's
sink is a byte sequence that only grows and may fail after any number of bytes. A byte of text is a `char`; `usize` is 64 bits.

## What turned out not to hold

- A response with status 1xx or 204 to a HEAD request gets a Content-Length from
  `write_response` that `read_response_head` refuses. The round trip holds exactly without
  that case (`ResponseRoundTrip`, `NoContentAnswerToHeadIsLost`).
- CSV rows without fields come back as one empty field (`FieldlessRowGainsField`), a blank
  last row is dropped (`BlankLastRowIsLost`), and a leading byte order mark is lost
  (`LeadingBomIsLost`). `RowsRoundTrip` and `DocumentRoundTrip` give the exact condition.
- `SHA384::get_hash` saves eight words and puts back six, so digests after the first call are
  not guaranteed (`SixWordsIff`, `WrongAfterAsked`). The comment on `SHA512::get_hash`, that
  it can be called repeatedly, holds for SHA-256, SHA-512 and SHA-3.
- `lookup_pointer_by_cp` is documented to return None outside every range; it does so only
  below the first range (`EncodeRefusesIff`, `GapIsNotRefused`). The encoder and decoder
  together do tell gaps from samples (`RoundTripIff`).
- `remove_section` is documented to remove the whole section; when a header occurs twice only
  the last block goes (`RemoveSection`, `RepeatedSectionRemains`).

## Model

| member | source | states |
|---|---|---|
| `HttpExchange.ExchangeRequests` | libca/http/src/libca/http/http1_codec.cpp:266-437 | For every list of requests the writer accepts and that fit the limits, writing them one after another and reading repeatedly returns the same list (values trimmed, the added Content-Length included), for every schedule of fragments and interruptions. |
| `HttpExchange.ExchangeAnswers` | libca/http/src/libca/http/http1_codec.cpp:440-520 | For every list of responses with their request methods, each read consumes exactly the bytes of its message, leaves the next one aligned, and recovers status, fields and body; the body is empty for HEAD, 1xx, 204, 304 and 2xx to CONNECT. |
| `HttpExchange.ExchangeStream` | libca/http/src/libca/http/http1_codec.cpp:545-605 | Any chunks written and finished with trailers are decoded to their concatenation and the trailers, for any fragmentation and any positive read capacities. |
| `HttpExchange.ExchangeStreamedAnswer` | libca/http/src/libca/http/http1_codec.cpp:1119-1167 | The same for a streamed response and a reader given the same request method. |
| `HttpExchange.ReadInPieces` | libca/http/src/libca/http/http1_codec.cpp:627-667 | Reading an open body with any positive capacities yields exactly the body and trailers its bytes stand for and stops at the end of the message. |
| `HttpExchange.Replay` | libca/http/src/libca/http/http1_codec.cpp:227-264 | Over every run of calls header use and decoded bytes stay within the limits, decoded plus remaining bytes too until the reader has failed; and after a protocol or I/O failure no later head, body, finish or discard call succeeds. |
| `HttpExchange.Perform` | libca/http/src/libca/http/http1_codec.cpp:527-682 | One call in any state keeps the invariant; from a failed state it never succeeds and never leaves that state. |
| `HttpGrammar.RequestIff` | libca/http/src/libca/http/http1_codec.cpp:706-725 | A request is read exactly from the byte strings a declared grammar puts together for it (request line, field lines with blanks, empty line, body of the announced framing) within the limits, each with its own length and contents. |
| `HttpGrammar.ResponseIff` | libca/http/src/libca/http/http1_codec.cpp:727-746 | The same for a response and the method it answers. |
| `HttpGrammar.RequestHeadIff` | libca/http/src/libca/http/http1_codec.cpp:375-438 | Which bytes are a request head and what it opens: one Host field for 1.1, no transfer coding for 1.0, the announced framing. |
| `HttpGrammar.ResponseHeadIff` | libca/http/src/libca/http/http1_codec.cpp:440-520 | Which bytes are a response head, with 1xx, 204, 304, HEAD and 2xx to CONNECT named as the exchanges without a body. |
| `HttpGrammar.NeverBothFields` | libca/http/src/libca/http/http1_codec.cpp:138-141 | No accepted request head has both framing fields, and no accepted response head unless the exchange has no body. |
| `HttpGrammar.ChunkedIff` | libca/http/src/libca/http/http1_codec.cpp:545-605 | A chunked body is read exactly from size lines with optional extensions, data, and trailers other than four named fields, within the limits. |
| `HttpGrammar.FieldsIff` | libca/http/src/libca/http/http1_codec.cpp:337-373 | A field block is read exactly from the spellings of its fields that fit the byte and count budgets. |
| `HttpGrammar.LineIff` | libca/http/src/libca/http/http1_codec.cpp:298-335 | A line is read exactly when the input starts with it and CR LF. |
| `HttpPrefix.RequestCut` | libca/http/src/libca/http/http1_codec.cpp:298-335 | No proper beginning of a request is taken for a request: it is reported as cut short, or as the clean end when nothing was sent. |
| `HttpPrefix.ResponseCut` | libca/http/src/libca/http/http1_codec.cpp:298-335 | The same for a response whose body does not run to the end of the connection. |
| `HttpRoundTrip.RequestRoundTrip` | libca/http/src/libca/http/http1_codec.cpp:930-984 | A written request in front of any bytes parses to itself when it fits the limits, using exactly its own bytes; when it does not fit, parsing fails with a limit error. |
| `HttpRoundTrip.ResponseRoundTrip` | libca/http/src/libca/http/http1_codec.cpp:986-1070 | A written response in front of any bytes parses to itself for the same method exactly when it fits the limits and is not a 1xx or 204 answer to HEAD, to which the writer adds a length the reader refuses. |
| `HttpRoundTrip.NoContentAnswerToHeadIsLost` | libca/http/src/libca/http/http1_codec.cpp:440-520 | A concrete 204 answer to HEAD that the writer accepts and the reader refuses. |
| `HttpRoundTrip.ParsePrintedChunks` | libca/http/src/libca/http/http1_codec.cpp:545-605 | Chunks, last chunk and trailers in front of any bytes are read back completely exactly when they fit the limits. |
| `HttpRoundTrip.ParsePrintedFields` | libca/http/src/libca/http/http1_codec.cpp:337-373 | A printed field block in front of any bytes is read back with trimmed values, using exactly its bytes, if and only if it fits the byte and count budgets. |
| `HttpRoundTrip.ParsePrintedBody` | libca/http/src/libca/http/http1_codec.cpp:885-928 | A body written with the framing its head declares is read back with its trailers, or fails on a limit. |
| `HttpRoundTrip.StreamedRequestHead` | libca/http/src/libca/http/http1_codec.cpp:1072-1117 | The head of a streamed request is read back and announces a chunked body. |
| `HttpRoundTrip.StreamedResponseHead` | libca/http/src/libca/http/http1_codec.cpp:1119-1167 | The head of a streamed response is read back for the same method and announces a chunked body. |
| `HttpFraming.FramingDelivered` | libca/http/src/libca/http/http1_codec.cpp:130-148 | Trimming every field value, as a receiver does, never changes the framing decision. |
| `HttpFraming.FramingAfterSet` | libca/http/src/libca/http/http1_codec.cpp:203-211 | Setting Content-Length on a message without framing fields makes it length-delimited with exactly that length. |
| `HttpFraming.ParseContentLength` | libca/http/src/libca/http/http1_codec.cpp:59-98 | All members of all Content-Length fields must be one and the same decimal number in range; that number or an error results. |
| `HttpFraming.ScanLength` | libca/http/src/libca/http/http1_codec.cpp:59-98 | One field value: accepted exactly when every member is the same number, agreeing with any earlier one. |
| `HttpFraming.ParseChunkedTransferEncoding` | libca/http/src/libca/http/http1_codec.cpp:100-128 | Accepts exactly the single coding chunked, with the two error kinds told apart. |
| `HttpFraming.BodyFraming` | libca/http/src/libca/http/http1_codec.cpp:130-148 | The framing decision, said on the fields: chunked exactly for a single coding chunked and no Content-Length, a length exactly when every member of every Content-Length declares it and there is no Transfer-Encoding, otherwise none or close-delimited exactly when neither field is present; both fields together are refused. |
| `HttpFraming.FramingIff` | libca/http/src/libca/http/http1_codec.cpp:130-148 | The framing function returns exactly what the fields announce, outcome by outcome, for all fields. |
| `HttpFraming.BothFieldsRefused` | libca/http/src/libca/http/http1_codec.cpp:138-141 | A message with both Content-Length and Transfer-Encoding is refused whatever their values. |
| `HttpFraming.RefusalKind` | libca/http/src/libca/http/http1_codec.cpp:100-141 | A refusal is Unsupported exactly for consistent lengths and non-empty codings other than a single chunked, and InvalidMessage otherwise. |
| `Numerals.ParseNumeral` | libca/http/src/libca/http/http1_codec.cpp:150-179 | The overflow-checked digit loop returns the value exactly for a numeral that fits, and refuses everything else. |
| `Numerals.PrintThenValue` | libca/http/src/libca/http/http1_codec.cpp:765-792 | Printing a number in base 10 or 16 and evaluating the digits returns it. |
| `Numerals.ValueThenPrint` | libca/http/src/libca/http/http1_codec.cpp:150-179 | A canonical numeral is what printing its value produces: the two are mutually inverse. |
| `Numerals.ValueOfParts` | libca/http/src/libca/http/http1_codec.cpp:150-179 | Places count from the right: a numeral in front weighs the base to the power of the length behind it. |
| `Numerals.DigitsAre` | libca/http/src/libca/http/http1_codec.cpp:150-179 | Which character is which digit in bases 10 and 16. |
| `Text.TrimOws` | libca/http/src/libca/http/http1_codec.cpp:30-37 | Removes exactly the blanks at both ends. |
| `Text.TokensTrim` | libca/http/src/libca/http/http1_codec.cpp:59-98 | Trimming a comma-separated value does not change its members. |
| `Text.TrimIff` | libca/http/src/libca/http/http1_codec.cpp:30-37 | What is left after trimming is the one core without blanks at its ends. |
| `Text.TokensOfPieces` | libca/http/src/libca/http/http1_codec.cpp:59-98 | The members of a list value are the cores of the pieces between its commas. |
| `HttpFields.HttpHeaders.Append` | libca/http/src/libca/http/headers.cpp:58-68 | A valid field goes at the end; an invalid one is refused and nothing changes. |
| `HttpFields.HttpHeaders.Remove` | libca/http/src/libca/http/headers.cpp:83-91 | Exactly the fields of that name, in any letter case, go, and their number is returned. |
| `HttpFields.HttpHeaders.Set` | libca/http/src/libca/http/headers.cpp:70-81 | Replaces all fields of the name by one, or refuses without change. |
| `HttpFields.SetThenGetAll` | libca/http/src/libca/http/headers.cpp:70-110 | After set the name has exactly the new value and every other name the values it had. |
| `HttpFields.ContainsIffGetAll` | libca/http/src/libca/http/headers.cpp:102-115 | A name is contained exactly when it has values. |
| `HttpReader.Http1Reader.FillBuffer` | libca/http/src/libca/http/http1_codec.cpp:266-286 | Reads ahead, retrying interruptions, without losing or reordering a byte; false only at the end. |
| `HttpReader.Http1Reader.ReadByte` | libca/http/src/libca/http/http1_codec.cpp:288-296 | The next pending byte, whatever the buffer holds. |
| `HttpReader.Http1Reader.ReadLine` | libca/http/src/libca/http/http1_codec.cpp:298-335 | The line at the front of the pending bytes, or the error its first offending byte calls for, independently of the buffering. |
| `HttpReader.Http1Reader.ReadHeaderLine` | libca/http/src/libca/http/http1_codec.cpp:337-373 | One field line against the remaining byte and count budget; the budget never wraps. |
| `HttpReader.Http1Reader.ReadHeaders` | libca/http/src/libca/http/http1_codec.cpp:337-373 | A whole field block, with the budgets used afterwards within their limits. |
| `HttpReader.Http1Reader.EnsureReady` | libca/http/src/libca/http/http1_codec.cpp:227-238 | Refuses a head in any state but Ready, and non-positive limits, without leaving the state. |
| `HttpReader.Http1Reader.BeginBody` | libca/http/src/libca/http/http1_codec.cpp:240-264 | Opens the declared body, or fails when its length exceeds the limit; what remains to be read is that body. |
| `HttpReader.Http1Reader.ReadRequestHead` | libca/http/src/libca/http/http1_codec.cpp:375-438 | The request head is a function of the pending bytes alone; clean end of input is told apart; the method is on record as soon as method and target are valid, even when the head is then refused. |
| `HttpReader.Http1Reader.ReadResponseHead` | libca/http/src/libca/http/http1_codec.cpp:440-520 | The response head and its framing for the request method are a function of the pending bytes alone. |
| `HttpReader.Http1Reader.ReadFixedBodyPart` | libca/http/src/libca/http/http1_codec.cpp:527-543 | Delivers a non-empty part of a length-delimited body or fails; never beyond the length. |
| `HttpReader.Http1Reader.ReadCloseDelimitedBodyPart` | libca/http/src/libca/http/http1_codec.cpp:607-625 | Delivers a part of a body that runs to the end of the connection, within the limit. |
| `HttpReader.Http1Reader.ReadChunkSize` | libca/http/src/libca/http/http1_codec.cpp:545-605 | Reads a size line; decoded plus announced bytes stay within the limit, and size zero completes the body with its trailers. |
| `HttpReader.Http1Reader.ReadChunkDataPart` | libca/http/src/libca/http/http1_codec.cpp:545-605 | Delivers part of a chunk, counted exactly once. |
| `HttpReader.Http1Reader.ReadChunkEnding` | libca/http/src/libca/http/http1_codec.cpp:545-605 | Accepts exactly CR LF after a chunk. |
| `HttpReader.Http1Reader.ReadChunkedBodyPart` | libca/http/src/libca/http/http1_codec.cpp:545-605 | One delivery of a chunked body advances the body by exactly the bytes delivered. |
| `HttpReader.Http1Reader.ReadBody` | libca/http/src/libca/http/http1_codec.cpp:627-646 | One delivery of any body; zero only when the body is complete. |
| `HttpReader.Http1Reader.FinishBody` | libca/http/src/libca/http/http1_codec.cpp:653-667 | Hands out the trailers of a complete body and becomes ready, and fails in any other state. |
| `HttpReader.Http1Reader.DiscardBody` | libca/http/src/libca/http/http1_codec.cpp:669-682 | Skips the rest of the body and leaves the next message at the front. |
| `HttpReader.Http1Reader.ReadBodyAll` | libca/http/src/libca/http/http1_codec.cpp:684-704 | The whole body and its trailers, or the error its bytes call for. |
| `HttpReader.Http1Reader.ReadRequest` | libca/http/src/libca/http/http1_codec.cpp:706-725 | A complete request, determined by the pending bytes alone; afterwards the reader is aligned or dead. |
| `HttpReader.Http1Reader.ReadResponse` | libca/http/src/libca/http/http1_codec.cpp:727-746 | A complete response for the request method, determined by the pending bytes alone. |
| `HttpReader.ParseChunkSize` | libca/http/src/libca/http/http1_codec.cpp:150-179 | The size before any extension, checked for overflow. |
| `HttpReader.CheckRequestHead` | libca/http/src/libca/http/http1_codec.cpp:419-437 | Exactly one non-empty Host field for version 1.1, no transfer coding for 1.0, then the framing decision. |
| `HttpReader.CheckResponseHead` | libca/http/src/libca/http/http1_codec.cpp:494-516 | No framing fields where the status forbids them, no transfer coding for version 1.0, and no body where the exchange rules one out. |
| `HttpWriter.SettleBody` | libca/http/src/libca/http/http1_codec.cpp:953-970 | Which framing a body is written with, or why it is refused; a length that disagrees with the body is an error. |
| `HttpWriter.SettleRequest` | libca/http/src/libca/http/http1_codec.cpp:930-984 | Accepts exactly the requests that can be framed and names the fields written. |
| `HttpWriter.SettleResponse` | libca/http/src/libca/http/http1_codec.cpp:986-1070 | The same for responses, with no body for HEAD, 1xx, 204, 304 and 2xx to CONNECT. |
| `HttpSending.PlanRequestIff` | libca/http/src/libca/http/http1_codec.cpp:930-984 | The writer accepts a request exactly when line, Host, transfer coding, trailers and framing fields agree with it, and sends its fields or those and the length. |
| `HttpSending.PlanResponseIff` | libca/http/src/libca/http/http1_codec.cpp:986-1070 | The same for a response and the method it answers, the statuses and methods without a body named. |
| `HttpSending.PlanStreamIff` | libca/http/src/libca/http/http1_codec.cpp:1072-1167 | Which heads open a body written chunk by chunk, and the fields that go out. |
| `HttpSending.RequestBytesAre` | libca/http/src/libca/http/http1_codec.cpp:930-984 | The bytes of a request, written out: request line, field lines, empty line, body or one chunk with trailers. |
| `HttpSending.ResponseBytesAre` | libca/http/src/libca/http/http1_codec.cpp:986-1070 | The bytes of a response, written out; an empty reason becomes the customary one. |
| `HttpWriter.ByteSink.WriteAll` | libca/http/src/libca/http/http1_codec.cpp:856-864 | All of the data is taken, or as much as fits before the failure and an error. |
| `HttpWriter.Http1Writer.WriteHeaders` | libca/http/src/libca/http/http1_codec.cpp:866-883 | Appends the field lines; when the sink fails, what was sent up to there is in it and the error is reported. |
| `HttpWriter.Http1Writer.WriteBody` | libca/http/src/libca/http/http1_codec.cpp:885-928 | Appends the body plain or as one chunk with trailers, or nothing; when the sink fails, what was sent up to there is in it and the error is reported. |
| `HttpWriter.Http1Writer.WriteRequest` | libca/http/src/libca/http/http1_codec.cpp:930-984 | Appends exactly the bytes of an accepted request, a refused one writes nothing; when the sink fails, what was sent up to there is in it and the error is reported. |
| `HttpWriter.Http1Writer.WriteResponse` | libca/http/src/libca/http/http1_codec.cpp:986-1070 | Appends exactly the bytes of an accepted response, a refused one writes nothing; when the sink fails, what was sent up to there is in it and the error is reported. |
| `HttpWriter.Http1Writer.BeginChunkedRequest` | libca/http/src/libca/http/http1_codec.cpp:1072-1117 | Writes the head with chunked framing and locks the writer until the body is finished; when the sink fails, what was sent up to there is in it and the error is reported and the writer stays free. |
| `HttpWriter.Http1Writer.BeginChunkedResponse` | libca/http/src/libca/http/http1_codec.cpp:1119-1167 | The same for a response; refused where the exchange has no body. |
| `HttpWriter.ChunkedBodyWriter.WriteChunk` | libca/http/src/libca/http/http1_codec.cpp:765-792 | A non-empty chunk is appended with its hexadecimal size, an empty one appends nothing, a finished writer refuses; when the sink fails, what was sent up to there is in it and the error is reported. |
| `HttpWriter.ChunkedBodyWriter.Finish` | libca/http/src/libca/http/http1_codec.cpp:815-836 | Appends the last chunk and valid trailers once and unlocks the writer; when the sink fails, what was sent up to there is in it and the error is reported and the body stays open; an inactive writer changes nothing. |
| `Csv.RowsRoundTrip` | libca/csv/src/libca/csv/csv_reader.cpp:78-172 | Rows written and read back are unchanged if and only if every row has a field, the last row prints as something and the text does not begin with a byte order mark; without the mark the surviving rows come back. For all rows, every legal delimiter and quote, each line ending, both quoting styles, with or without trimming. |
| `Csv.DocumentRoundTrip` | libca/csv/src/libca/csv/csv_writer.cpp:76-93 | A document comes back unchanged exactly under those conditions and matching header options, for all options. |
| `Csv.SurvivesIff` | libca/csv/src/libca/csv/csv_writer.cpp:42-93 | Which rows survive unchanged, as a condition on the rows and the quoting option. |
| `Csv.LeadingBomIsLost` | libca/csv/src/libca/csv/csv_reader.cpp:42-76 | A concrete document whose first field starts with the byte order mark and loses it. |
| `Csv.BomIsMissed` | libca/csv/src/libca/csv/csv_reader.cpp:100-106 | No text that begins with a byte order mark reads back as the rows it was written for, even when delimiter or quote is one of its bytes. |
| `Csv.BomIff` | libca/csv/src/libca/csv/csv_writer.cpp:42-93 | With delimiter and quote outside the mark, the text begins with it exactly when the first field does and is not quoted. |
| `Csv.ReadLoad` | libca/csv/src/libca/csv/csv_reader.cpp:78-172 | Reading never yields more bytes other than quotes and line ends than the text holds after its mark. |
| `Csv.PrintedLoad` | libca/csv/src/libca/csv/csv_writer.cpp:42-93 | Printing adds only quotes, line ends and one delimiter between any two fields. |
| `Csv.FieldlessRowGainsField` | libca/csv/src/libca/csv/csv_writer.cpp:65-74 | A concrete row without fields that comes back with one. |
| `Csv.BlankLastRowIsLost` | libca/csv/src/libca/csv/csv_reader.cpp:151-160 | A concrete last row of one empty field that is dropped. |
| `Csv.WriteThenRead` | libca/csv/src/libca/csv/csv_writer.cpp:97-116 | The writer and reader loops run after each other return the document exactly under those conditions. |
| `Csv.Read` | libca/csv/src/libca/csv/csv_reader.cpp:42-172 | The single-pass loop computes the rows and error positions of the quoting state machine, whose accepted texts and results RowsIff and ErrorPlace give without it. |
| `CsvGrammar.RowsIff` | libca/csv/src/libca/csv/csv_reader.cpp:78-172 | Reading accepts exactly the texts put together from raw or quoted fields, delimiters and the three line endings, and gives the rows they mean: raw fields trimmed of the blanks at their ends where that is asked for, quoted ones taken out of their quotes. |
| `CsvGrammar.RawRow` | libca/csv/src/libca/csv/csv_reader.cpp:78-88 | One row of raw fields between delimiters comes back field by field: without the blanks at its ends when trimming is on, as it is when trimming is off. |
| `CsvGrammar.ErrorPlace` | libca/csv/src/libca/csv/csv_reader.cpp:108-165 | An error is reported behind the text when a closing quote is missing there, and otherwise at the line and column of the first byte after which no continuation is a document. |
| `CsvGrammar.PrintedRows` | libca/csv/src/libca/csv/csv_writer.cpp:18-93 | The written text: fields quoted only where they must be, delimiters between fields, line endings between rows. |
| `Csv.TrimAsciiSpace` | libca/csv/src/libca/csv/csv_reader.cpp:15-30 | Removes exactly the blanks at both ends. |
| `Csv.FieldNeedsQuote` | libca/csv/src/libca/csv/csv_writer.cpp:18-40 | A field is quoted exactly when it contains a special byte, has a blank at an end, or quoting is forced. |
| `Csv.WriteField` | libca/csv/src/libca/csv/csv_writer.cpp:42-63 | Appends the field, quoted with doubled quotes where needed. |
| `Csv.WriteRow` | libca/csv/src/libca/csv/csv_writer.cpp:65-74 | Appends the fields with delimiters between them. |
| `Csv.WriteToStream` | libca/csv/src/libca/csv/csv_writer.cpp:76-93 | Appends header and rows with line endings between them only. |
| `Url.ParseToStringParse` | libca/http/src/libca/http/url.cpp:300-437 | Printing a parsed URL and parsing again returns the same components. |
| `Url.ParsedWellFormed` | libca/http/src/libca/http/url.cpp:300-437 | What parsing returns always satisfies the component rules. |
| `Url.ParsePrinted` | libca/http/src/libca/http/url.cpp:523-552 | Every URL with well-formed components prints to text that parses to it. |
| `UrlGrammar.UrlIff` | libca/http/src/libca/http/url.cpp:300-437 | Parsing accepts exactly the texts put together from a scheme in any letter case, userinfo, host, port, path, query and fragment, each with the components it spells. |
| `UrlGrammar.NormalizedComponents` | libca/http/src/libca/http/url.cpp:554-574 | Normalisation component by component: host in small letters, ports 80 and 443 left out for their schemes, escapes normalised piece by piece, dot segments removed as the laws demand. |
| `UrlGrammar.QueryIff` | libca/http/src/libca/http/url.cpp:243-276 | The parameters of a query are those of its non-empty segments between ampersands, key and value around the first equals sign, decoded. |
| `Url.NormalizeIdempotent` | libca/http/src/libca/http/url.cpp:554-574 | Normalising twice is normalising once. |
| `Url.NormalizedWellFormed` | libca/http/src/libca/http/url.cpp:554-574 | A normalised URL is well formed again and its path starts with a slash and has no dot segment. |
| `Url.QueryParamsDefined` | libca/http/src/libca/http/url.cpp:243-276 | Splitting a query with valid escapes never cuts one, so every parameter decodes. |
| `Url.ParsedQueryDefined` | libca/http/src/libca/http/url.cpp:515-521 | The error branch of query_params cannot be taken for a parsed URL. |
| `Url.QueryParamsNormalized` | libca/http/src/libca/http/url.cpp:243-276 | Normalisation keeps the list of decoded query parameters. |
| `Url.ParseQueryParams` | libca/http/src/libca/http/url.cpp:243-276 | The scanning loop returns exactly the decoded non-empty segments in order, or fails on a malformed one. |
| `Url.ParsePortText` | libca/http/src/libca/http/url.cpp:113-133 | The digit loop accepts exactly 1 to 65535. |
| `Url.Normalized` | libca/http/src/libca/http/url.cpp:554-574 | Assembles the normalised components, leaving out a default port. |
| `Percent.EncodeThenDecode` | libca/http/src/libca/http/url.cpp:203-241 | Decoding undoes encoding for every byte string. |
| `Percent.DecodeDefined` | libca/http/src/libca/http/url.cpp:220-241 | Decoding succeeds exactly on well-formed escapes. |
| `Percent.NormalizeLaws` | libca/http/src/libca/http/url.cpp:135-163 | Normalising escapes keeps the decoded bytes, stays well formed and is idempotent. |
| `PercentGrammar.DecodeIff` | libca/http/src/libca/http/url.cpp:220-241 | A text decodes to a value exactly when it is put together from plain bytes and two-digit escapes that stand for its bytes. |
| `PercentGrammar.EncodeIs` | libca/http/src/libca/http/url.cpp:203-218 | Unreserved bytes stay and every other becomes an escape with capital digits, byte by byte. |
| `PercentGrammar.NormalizeIs` | libca/http/src/libca/http/url.cpp:135-158 | Piece by piece: plain bytes stay, escapes of unreserved bytes are taken off, other escapes get capital digits. |
| `Percent.PercentEncode` | libca/http/src/libca/http/url.cpp:203-218 | The loop produces the escaped form. |
| `Percent.PercentDecode` | libca/http/src/libca/http/url.cpp:220-241 | The loop decodes, or fails on a malformed escape. |
| `Percent.NormalizePercent` | libca/http/src/libca/http/url.cpp:135-163 | The loop decodes unreserved bytes and capitalises other escapes. |
| `Percent.ValidPercentSequences` | libca/http/src/libca/http/url.cpp:62-77 | Holds exactly when every percent sign starts a two-digit escape. |
| `DotSegments.RemoveDotsClean` | libca/http/src/libca/http/url.cpp:165-201 | The result starts with a slash and has no dot segment. |
| `DotSegments.RemoveDotsIdempotent` | libca/http/src/libca/http/url.cpp:165-201 | Removing dot segments twice changes nothing more. |
| `DotSegments.CleanIsFixed` | libca/http/src/libca/http/url.cpp:165-201 | A path without dot segments is left as it is. |
| `DotSegments.RemoveDotSegments` | libca/http/src/libca/http/url.cpp:165-201 | The segment stack computes in one pass what every function that obeys the laws of removing dot segments computes. |
| `DotSegments.RemoveDotsLaws` | libca/http/src/libca/http/url.cpp:161-201 | The laws on strings: clean paths stay, a dot segment goes, a double dot segment goes with the name before it, above the root there is only the root, a missing slash in front is added. |
| `DotSegments.DotDotTakesName` | libca/http/src/libca/http/url.cpp:180-185 | Any path, a name and a double dot segment behind it, then anything: removing dot segments gives what it gives without the two. |
| `DotSegments.OnlyRemoval` | libca/http/src/libca/http/url.cpp:161-201 | The laws leave no choice: whatever obeys them agrees with the segment stack on every path. |
| `Aes.DecryptEncrypt` | libca/crypto/src/libca/crypto/aes.cpp:243-286 | Decrypting an encrypted block returns it, for every key schedule and round count. |
| `Aes.EncryptDecrypt` | libca/crypto/src/libca/crypto/aes.cpp:243-286 | Encrypting a decrypted block returns it. |
| `Aes.MixColumnsInverse` | libca/crypto/src/libca/crypto/aes.cpp:212-234 | Both column matrices over the field undo each other. |
| `Aes.ShiftRowsMoves` | libca/crypto/src/libca/crypto/aes.cpp:164-210 | Row r of the column-ordered state moves r places, and back. |
| `Aes.SubBytesInverse` | libca/crypto/src/libca/crypto/aes.cpp:152-162 | The two substitutions undo each other on every state. |
| `AesTables.InverseSBox` | libca/crypto/src/libca/crypto/aes.cpp:38-75 | The inverse table undoes the table at every byte. |
| `AesField.GMulLoop` | libca/crypto/src/libca/crypto/aes.cpp:83-93 | The double-and-add loop computes the recursive product. |
| `AesField.GMulPlus` | libca/crypto/src/libca/crypto/aes.cpp:83-93 | Multiplication distributes over addition. |
| `AesPolynomials.GMulIsProduct` | libca/crypto/src/libca/crypto/aes.cpp:77-93 | gmul is the product of two polynomials over GF(2) modulo x^8 + x^4 + x^3 + x + 1. |
| `AesPolynomials.SBoxIsAffineInverse` | libca/crypto/src/libca/crypto/aes.cpp:38-55 | The table is the multiplicative inverse, zero for zero, followed by the affine map of section 5.1.1 of FIPS 197. |
| `AesField.InvMixMix` | libca/crypto/src/libca/crypto/aes.cpp:212-234 | One byte of a column is recovered from the four mixed ones. |
| `AesBlock.SubBytesInPlace` | libca/crypto/src/libca/crypto/aes.cpp:152-156 | The loop substitutes all sixteen bytes in place. |
| `AesBlock.ShiftRowsInPlace` | libca/crypto/src/libca/crypto/aes.cpp:164-186 | The assignments in place amount to the row shift. |
| `AesBlock.InvShiftRowsInPlace` | libca/crypto/src/libca/crypto/aes.cpp:188-210 | The same for the inverse shift. |
| `AesBlock.MixColumnsInPlace` | libca/crypto/src/libca/crypto/aes.cpp:212-222 | Each column in turn is replaced by its product with the matrix. |
| `AesBlock.InvMixColumnsInPlace` | libca/crypto/src/libca/crypto/aes.cpp:224-234 | The same for the inverse matrix. |
| `AesBlock.AddRoundKeyInPlace` | libca/crypto/src/libca/crypto/aes.cpp:236-240 | The round key is added in place. |
| `AesBlock.EncryptBlock` | libca/crypto/src/libca/crypto/aes.cpp:243-263 | The round loop computes the cipher of section 5.1 of FIPS 197. |
| `AesBlock.DecryptBlock` | libca/crypto/src/libca/crypto/aes.cpp:266-286 | The round loop computes its inverse of section 5.3. |
| `AesKeys.KeyExpansion` | libca/crypto/src/libca/crypto/aes.cpp:107-148 | The 32-bit shift-and-mask loop produces the round keys, which RoundKeysAreSchedule ties to the recurrence of section 5.2 of FIPS 197 for all three key sizes. |
| `AesStandard.RoundKeysAreSchedule` | libca/crypto/src/libca/crypto/aes.cpp:96-148 | For all three key sizes and the round counts 10, 12 and 14 the round keys start with the key and obey the recurrence of the standard at every later byte, with the round constants written out. |
| `AesStandard.SameSchedule` | libca/crypto/src/libca/crypto/aes.cpp:107-148 | The recurrence determines the schedule: two schedules of one key are equal. |
| `AesStandard.EncryptIff` | libca/crypto/src/libca/crypto/aes.cpp:243-264 | Encryption yields exactly what a computation of the standard ends in: each state byte by byte from the one before, by substitution, row shift, column product and round key, the last round without columns. |
| `ModeStandard.AesCipherIff` | libca/crypto/src/libca/crypto/aes.cpp:107-264 | The block cipher under a key is the encryption of FIPS 197 under the schedule of that key, and nothing else is. |
| `ModeStandard.AesEcbBlocks` | libca/crypto/src/libca/crypto/aes.cpp:309-328 | ECB: each ciphertext block is the standard encryption of the plaintext block, whichever direction is computed. |
| `ModeStandard.AesCbcBlocks` | libca/crypto/src/libca/crypto/aes.cpp:330-362 | CBC: each ciphertext block is the standard encryption of the plaintext block added to the ciphertext block before it, or to the initial vector. |
| `ModeStandard.AesCtrBytes` | libca/crypto/src/libca/crypto/aes.cpp:364-392 | CTR: each byte is masked with a byte of the standard encryption of the counter advanced once per block. |
| `AesKeys.NextWord` | libca/crypto/src/libca/crypto/aes.cpp:119-140 | One schedule word on packed 32-bit values is the byte-wise recurrence. |
| `AesModes.EcbUndone` | libca/crypto/src/libca/crypto/aes.cpp:859-900 | ECB refuses exactly bad key sizes and lengths; each direction undoes the other for any number of blocks and all key sizes. |
| `AesModes.CbcUndone` | libca/crypto/src/libca/crypto/aes.cpp:902-944 | The same for CBC with any initial vector, in both orders. |
| `AesModes.CtrUndone` | libca/crypto/src/libca/crypto/aes.cpp:946-966 | Counter mode is its own inverse for input of any length. |
| `AesModes.CryptEcb` | libca/crypto/src/libca/crypto/aes.cpp:309-327 | The block loop computes ECB or refuses its arguments. |
| `AesModes.CryptCbc` | libca/crypto/src/libca/crypto/aes.cpp:330-361 | The chaining loop computes CBC in the chosen direction or refuses its arguments. |
| `AesModes.CryptCtr` | libca/crypto/src/libca/crypto/aes.cpp:364-390 | The loop computes counter mode, the last block cut short. |
| `AesModes.IncrementCounter` | libca/crypto/src/libca/crypto/aes.cpp:300-306 | The byte loop with early exit advances the counter. |
| `BlockModes.IncrementAddsOne` | libca/crypto/src/libca/crypto/aes.cpp:300-306 | Advancing the counter adds one to the big-endian number and wraps at the top. |
| `BlockModes.IncrementCarries` | libca/crypto/src/libca/crypto/aes.cpp:300-307 | The last byte below 0xff goes up by one, those behind it become zero, those before it stay. |
| `BlockModes.CtrAt` | libca/crypto/src/libca/crypto/aes.cpp:364-390 | Byte 16j + k is masked with byte k of the cipher of the j-th counter. |
| `BlockModes.CbcRoundTrip` | libca/crypto/src/libca/crypto/aes.cpp:330-361 | CBC decryption undoes CBC encryption for every pair of inverse block functions and block size. |
| `BlockModes.EcbRoundTrip` | libca/crypto/src/libca/crypto/aes.cpp:309-327 | The same for ECB. |
| `Des.BlockInverse` | libca/crypto/src/libca/crypto/des.cpp:182-194 | For every key and block, the reversed schedule undoes the cipher, in either direction. |
| `Des.CryptInverse` | libca/crypto/src/libca/crypto/des.cpp:182-194 | The same for arbitrary subkeys and any number of rounds. |
| `Des.RoundsInverse` | libca/crypto/src/libca/crypto/des.cpp:182-194 | Swapped halves and reversed keys undo the Feistel rounds. |
| `Des.OuterInverse` | libca/crypto/src/libca/crypto/des.cpp:16-37 | The final permutation inverts the initial one, and the other way round. |
| `Des.Complementation` | libca/crypto/src/libca/crypto/des.cpp:152-194 | Complementing key and block complements the result. |
| `DesStandard.CryptIff` | libca/crypto/src/libca/crypto/des.cpp:182-195 | The cipher yields exactly what a computation of the standard ends in: permuted halves, sixteen or any number of rounds given bit by bit, halves changing sides at the end. |
| `DesStandard.RoundBit` | libca/crypto/src/libca/crypto/des.cpp:152-165 | The round function bit by bit: which six input and key bits choose an entry of a box and where each bit of the entry ends up. |
| `DesStandard.BoxesAre` | libca/crypto/src/libca/crypto/des.cpp:91-139 | Every row of the eight substitution boxes against the standard, a hexadecimal digit for each entry. |
| `DesStandard.SubkeyBit` | libca/crypto/src/libca/crypto/des.cpp:167-180 | Which bit of the key is which bit of which subkey, with the rotations added up and the selections written out. |
| `ModeStandard.DesCipherIff` | libca/crypto/src/libca/crypto/des.cpp:182-210 | The block cipher on bytes is the encryption of FIPS 46-3 under the subkeys of the key, and nothing else is. |
| `ModeStandard.DesEcbBlocks` | libca/crypto/src/libca/crypto/des.cpp:212-232 | ECB: each ciphertext block is the standard encryption of the plaintext block, in either direction. |
| `ModeStandard.DesCbcBlocks` | libca/crypto/src/libca/crypto/des.cpp:234-275 | CBC: each ciphertext block is the standard encryption of the plaintext block added to the ciphertext block before it, or to the initial vector. |
| `Des.PermuteBits` | libca/crypto/src/libca/crypto/des.cpp:143-149 | The shifting loop computes the table permutation. |
| `Des.Feistel` | libca/crypto/src/libca/crypto/des.cpp:152-164 | The loop over eight boxes computes the round function. |
| `Des.CryptBlock` | libca/crypto/src/libca/crypto/des.cpp:182-194 | The round loop computes the cipher for the given subkeys. |
| `Des.DeriveSubkeys` | libca/crypto/src/libca/crypto/des.cpp:167-179 | The loop fills the sixteen subkeys, in reverse for decryption. |
| `DesModes.EcbUndone` | libca/crypto/src/libca/crypto/des.cpp:212-231 | ECB refuses exactly bad lengths; each direction undoes the other for any length. |
| `DesModes.CbcUndone` | libca/crypto/src/libca/crypto/des.cpp:234-275 | The same for CBC with any initial vector. |
| `DesModes.CryptEcb` | libca/crypto/src/libca/crypto/des.cpp:212-231 | The block loop computes ECB or refuses its arguments. |
| `DesModes.CryptCbc` | libca/crypto/src/libca/crypto/des.cpp:234-275 | The chaining loop computes CBC or refuses its arguments. |
| `DesModes.StoreLoad` | libca/crypto/src/libca/crypto/des.cpp:197-209 | Storing loaded bytes returns them. |
| `DesModes.LoadStore` | libca/crypto/src/libca/crypto/des.cpp:197-209 | Loading stored bits returns them. |
| `DesModes.LoadBit` | libca/crypto/src/libca/crypto/des.cpp:197-203 | Bits are loaded most significant first, byte by byte. |
| `DesModes.Pkcs5Pad` | libca/crypto/src/libca/crypto/des.cpp:335-344 | Adds one to eight bytes naming their number, up to a block boundary. |
| `DesModes.Pkcs5Unpad` | libca/crypto/src/libca/crypto/des.cpp:346-359 | Succeeds exactly on padded strings, with the string that was padded. |
| `DesModes.PadInjective` | libca/crypto/src/libca/crypto/des.cpp:335-359 | Different strings have different padded forms. |
| `DesModes.PadThenUnpad` | libca/crypto/src/libca/crypto/des.cpp:335-359 | Unpadding returns what was padded. |
| `Sha2.DigestOfMessage` | libca/crypto/src/libca/crypto/sha256.cpp:205-220 | After any calls, however the message was split and wherever digests were asked for, a digest is that of the padded whole message, when all words are put back (SHA-256, SHA-512). |
| `Sha2.SixWordsIff` | libca/crypto/src/libca/crypto/sha512.cpp:300-320 | With six of eight 64-bit words put back (SHA-384), a digest is guaranteed for every compression function exactly when get_hash was not called before, in runs of fewer than 2^63 calls. |
| `Sha2.WrongAfterAsked` | libca/crypto/src/libca/crypto/sha512.cpp:300-320 | A compression of 64-bit words for which every digest after a get_hash is wrong, in such runs. |
| `Sha2.RightBeforeAsked` | libca/crypto/src/libca/crypto/sha512.cpp:300-320 | Until the first get_hash, SHA-384 is right for any split. |
| `Sha2.LeavesAloneIff` | libca/crypto/src/libca/crypto/sha512.cpp:300-320 | get_hash leaves the hasher alone exactly when finishing leaves the words it does not put back alone. |
| `Sha2.PaddingFillsBlock` | libca/crypto/src/libca/crypto/sha512.cpp:145-159 | The padding is the shortest that completes a block. |
| `Sha2.PaddingBytes` | libca/crypto/src/libca/crypto/sha256.cpp:146-183 | The padding byte by byte: 0x80, zeros, the number of bits in big-endian order, together with the message whole blocks. |
| `Sha2.LengthFieldIsBitCount` | libca/crypto/src/libca/crypto/sha512.cpp:166-170 | Below 2^61 bytes the length field is the bit count of the standard. |
| `HashStream.AbsorbAppend` | libca/crypto/src/libca/crypto/sha256.cpp:115-144 | Where the input is cut makes no difference to the compressed blocks and the rest. |
| `Sha2Hashers.Hasher.Add` | libca/crypto/src/libca/crypto/sha256.cpp:115-144 | Buffering and direct absorption together compress the whole blocks of all bytes so far. |
| `Sha2Hashers.Hasher.Reset` | libca/crypto/src/libca/crypto/sha256.cpp:43-54 | Back to the initial words with nothing pending. |
| `Sha2Hashers.Hasher.ProcessBuffer` | libca/crypto/src/libca/crypto/sha256.cpp:146-189 | Padding in the buffer and a spill block compresses exactly the standard padding. |
| `Sha2Hashers.Hasher.PaddedLength` | libca/crypto/src/libca/crypto/sha256.cpp:146-155 | The length field ends this block or the next, whichever leaves room. |
| `Sha2Hashers.Hasher.GetHash` | libca/crypto/src/libca/crypto/sha512.cpp:264-320 | The digest words, and exactly which words are put back. |
| `Sha2Hashers.EncodeLength` | libca/crypto/src/libca/crypto/sha512.cpp:168-193 | The two shifted halves stored byte by byte are the big-endian bit count. |
| `Sha2Hashers.Perform` | libca/crypto/src/libca/crypto/sha256.cpp:115-220 | Any run of the class gives the digest of its message: always with all words put back, before the first get_hash otherwise. |
| `Sha3.SpongeOfParts` | libca/crypto/src/libca/crypto/sha3.cpp:183-200 | Padding what is left over completes the sponge of the whole message. |
| `Sha3.PaddingBits` | libca/crypto/src/libca/crypto/sha3.cpp:183-190 | The padding bit by bit: 0 and 1 for the domain, then a one, zeros, and a one at the end of the block. |
| `Sha3.SpongeHasher.Add` | libca/crypto/src/libca/crypto/sha3.cpp:146-177 | Topping up, direct absorption and buffering absorb the whole blocks of all bytes so far. |
| `Sha3.SpongeHasher.GetHash` | libca/crypto/src/libca/crypto/sha3.cpp:183-200 | Squeezes a padded copy and leaves the hasher as it is. |
| `Sha3.Perform` | libca/crypto/src/libca/crypto/sha3.cpp:146-215 | However the message is split, every digest asked for on the way is that of the bytes so far. |
| `Glob.GlobMatch` | libca/fs/src/libca/fs/file_util.cpp:174-222 | Terminates and holds exactly when the text can be cut into one piece for each pattern token. |
| `Glob.MatchTokens` | libca/fs/src/libca/fs/file_util.cpp:174-222 | The backtracking loop decides token-wise matching. |
| `Glob.FitsIffInLanguage` | libca/fs/src/libca/fs/file_util.cpp:164-173 | Matching token by token is membership in the declarative language. |
| `Glob.NeedsRecursiveWalk` | libca/fs/src/libca/fs/file_util.cpp:242-251 | Holds exactly for a double star or a wildcard before the last separator. |
| `Glob.ScanLosesNothing` | libca/fs/src/libca/fs/file_util.cpp:769-789 | Without a walk every match is the directory prefix and a name without separators. |
| `Glob.ScanOneLevel` | libca/fs/src/libca/fs/file_util.cpp:769-789 | The one-level scan finds exactly the existing paths in the language. |
| `Glob.WalkNeededIff` | libca/fs/src/libca/fs/file_util.cpp:242-251 | A walk is asked for exactly when some match lies outside the one-level scan. |
| `Recency.LargerIncludesSmaller` | libca/collection/src/libca/collection/lru_cache.hpp:71-151 | For every trace, the larger cache holds every entry of the smaller one with the same value, in the same order; hits never decrease, misses and evictions never increase. |
| `Recency.IncludedEntries` | libca/collection/src/libca/collection/lru_cache.hpp:71-101 | Inclusion gives equal lookups for every key of the smaller cache. |
| `Recency.OperationLaw` | libca/collection/src/libca/collection/lru_cache.hpp:71-120 | For every capacity and trace, what an operation does to every lookup, to the order of the entries and to the statistics. |
| `LruCaches.LruCache.Get` | libca/collection/src/libca/collection/lru_cache.hpp:71-81 | Changes no lookup; a hit moves the entry to the front, is counted and hands out its node; a miss is counted and changes nothing else. |
| `LruCaches.LruCache.Put` | libca/collection/src/libca/collection/lru_cache.hpp:85-99 | Afterwards the key is first and has the value; a new key in a full cache loses exactly the last key, which is reported; every other key keeps its value and place in order. |
| `LruCaches.LruCache.Remove` | libca/collection/src/libca/collection/lru_cache.hpp:103-113 | Returns the value; afterwards the key has no entry, every other key its value, the others their order, and no statistic has changed. |
| `LruCaches.LruCache.Clear` | libca/collection/src/libca/collection/lru_cache.hpp:116-120 | Afterwards nothing is found; the statistics stay. |
| `LruCaches.LruCache.Touch` | libca/collection/src/libca/collection/lru_cache.hpp:129-132 | Moves one node to the front; index and list still agree. |
| `LruCaches.LruCache.EvictLru` | libca/collection/src/libca/collection/lru_cache.hpp:135-143 | Reports and removes the oldest entry from list and index. |
| `LruCaches.LruCache.ContainsKey` | libca/collection/src/libca/collection/lru_cache.hpp:67-67 | Answers without touching order or statistics. |
| `LruCaches.LruCache.IndexAgrees` | libca/collection/src/libca/collection/lru_cache.hpp:147-149 | The index finds exactly what the list holds. |
| `LruCaches.NewCache` | libca/collection/src/libca/collection/lru_cache.hpp:46-55 | Refuses capacity zero. |
| `LruCaches.Perform` | libca/collection/src/libca/collection/lru_cache.hpp:71-151 | Every run of the class is the run of the bounded recency list. |
| `Gb18030.HolesAreNoneIff` | tools/gen_charset_tables.py:346-367 | For increasing samples, decoding yields nothing exactly off the samples if and only if every break is contiguous on one side. |
| `Gb18030.EncodesSamples` | tools/gen_charset_tables.py:330-343 | Every sampled code point finds its pointer. |
| `Gb18030.DecodesSamples` | tools/gen_charset_tables.py:346-367 | Every sampled pointer finds its code point. |
| `Gb18030.EncodeRefusesIff` | tools/gen_charset_tables.py:330-343 | The encoding lookup refuses only code points below the first sample, not the gaps between ranges. |
| `Gb18030.GapIsNotRefused` | tools/gen_charset_tables.py:330-343 | A concrete code point in a gap that still gets a pointer. |
| `Gb18030.RoundTripIff` | tools/gen_charset_tables.py:330-367 | Through both lookups a code point comes back exactly when it was sampled. |
| `Gb18030.DeriveRanges` | tools/gen_charset_tables.py:246-256 | The loop keeps exactly the samples that start a run. |
| `Gb18030.LookupPointerByCp` | tools/gen_charset_tables.py:330-343 | The binary search interpolates from the last start at or below the code point. |
| `Gb18030.LookupCpByPointer` | tools/gen_charset_tables.py:346-367 | The binary search interpolates from the last start at or below the pointer and refuses holes. |
| `Gb18030.FourBytesInverse` | tools/gen_charset_tables.py:321-327 | Four-byte packing and the mixed-radix formula are mutually inverse on all pointers and byte groups. |
| `Gb18030.TwoBytesInverse` | tools/gen_charset_tables.py:313-318 | The same for two bytes, with the skipped trail value. |
| `IniDocuments.IniDocument.Set` | libca/ini/src/libca/ini/ini_document.cpp:232-292 | get after set returns the value, every other lookup is unchanged, indexes equal the rebuilt ones, keys stay under their headers, and the records change in one line or one added block only. |
| `IniDocuments.IniDocument.Remove` | libca/ini/src/libca/ini/ini_document.cpp:335-344 | Removes the last line of the key, uncovering an earlier one; all other lookups are unchanged. |
| `IniDocuments.IniDocument.RemoveSection` | libca/ini/src/libca/ini/ini_document.cpp:298-333 | Cuts the last block of the section, or all global keys; other sections keep every lookup, the section is still there exactly when it had two headers, and its keys are then those before the cut. |
| `IniDocuments.SectionRemoved` | libca/ini/src/libca/ini/ini_document.cpp:298-333 | Other sections keep their lookups; the section keeps only what an earlier header of the same name holds. |
| `IniDocuments.RepeatedSectionRemains` | libca/ini/src/libca/ini/ini_document.cpp:298-333 | A concrete well-formed document with two headers of one name whose section and key are still found. |
| `IniRecords.GlobalsRemoved` | libca/ini/src/libca/ini/ini_document.cpp:300-312 | No global key is left and every other lookup is unchanged. |
| `IniDocuments.IniDocument.Get` | libca/ini/src/libca/ini/ini_document.cpp:114-128 | The value of the last line of the key, with the two error cases told apart. |
| `IniDocuments.IniDocument.HasSection` | libca/ini/src/libca/ini/ini_document.cpp:99-105 | A header for a named section; a key for the global one. |
| `IniDocuments.IniDocument.ListKeys` | libca/ini/src/libca/ini/ini_document.cpp:360-379 | Each key of the section once, by first line, and exactly those that can be looked up. |
| `IniDocuments.IniDocument.RebuildIndex` | libca/ini/src/libca/ini/ini_document.cpp:405-426 | Lines and both indexes follow from the records. |
| `IniDocuments.IniDocument.FindInsertPosition` | libca/ini/src/libca/ini/ini_document.cpp:443-458 | The end of the block that holds new keys of the section. |
| `IniDocuments.IniDocument.Overwrite` | libca/ini/src/libca/ini/ini_document.cpp:236-253 | An existing key keeps its line and format; the indexes need no rebuilding. |
| `IniRecords.RebuiltText` | libca/ini/src/libca/ini/ini_document.cpp:428-441 | A rebuilt line keeps everything around the value: the text before it, its quotes, and the comment behind it. |
| `IniRecords.NewKeyRebuilt` | libca/ini/src/libca/ini/ini_document.cpp:246-291 | A line added for a new key is key, blank, equals sign, blank, value, and setting its value again rebuilds the same text. |
| `IniRecords.IndexedLookup` | libca/ini/src/libca/ini/ini_document.cpp:85-95 | Lookup through the index is lookup of the last line. |
| `IniRecords.InsertedKey` | libca/ini/src/libca/ini/ini_document.cpp:275-291 | A new key line at that position is well formed, found, and changes no other lookup. |
| `IniRecords.HeaderAdded` | libca/ini/src/libca/ini/ini_document.cpp:258-273 | A new header changes no lookup and opens a block at the end. |
| `IniRecords.KeysOnce` | libca/ini/src/libca/ini/ini_document.cpp:360-379 | No key is listed twice and the listed keys are those with a value. |
| `BaseText.Base64Iff` | libca/crypto/src/libca/crypto/base64.cpp:32-106 | A text decodes to bytes exactly when it is their encoding: round trip and canonicity in one. |
| `BaseText.Base32Iff` | libca/crypto/src/libca/crypto/base32.cpp:33-139 | A text decodes to bytes exactly when it is their padded or unpadded encoding. |
| `BaseStandard.Base64Text` | libca/crypto/src/libca/crypto/base64.cpp:13-58 | The text character by character: which bits of which bytes choose which letter of the alphabet, and the padding. |
| `BaseStandard.Base32Text` | libca/crypto/src/libca/crypto/base32.cpp:13-68 | The same for Base32, padded and unpadded. |
| `BaseStandard.AlphabetsAre` | libca/crypto/src/libca/crypto/base64.cpp:13-13 | Which character of the two alphabets stands for which digit. |
| `BaseCodecs.EncodeBase64` | libca/crypto/src/libca/crypto/base64.cpp:32-58 | The group loop with its early exits produces the encoding. |
| `BaseCodecs.DecodeBase64` | libca/crypto/src/libca/crypto/base64.cpp:60-106 | Accepts exactly the encodings, each with the bytes it came from. |
| `BaseCodecs.EncodeBase32` | libca/crypto/src/libca/crypto/base32.cpp:33-68 | Full groups and the aligned tail produce the encoding. |
| `BaseCodecs.DecodeBase32` | libca/crypto/src/libca/crypto/base32.cpp:70-139 | Accepts exactly the padded and unpadded encodings. |
| `DigitGroups.GroupForth` | libca/crypto/src/libca/crypto/base32.cpp:41-66 | A group decodes to the bytes it was made from, fill bits being zero. |
| `DigitGroups.GroupBack` | libca/crypto/src/libca/crypto/base32.cpp:120-134 | An accepted group is the one made from the bytes it decodes to. |
| `BaseText.AlphabetInverse` | libca/crypto/src/libca/crypto/base64.cpp:13-29 | Alphabet and reverse table are mutually inverse. |
| `Varint.ReadIff` | libca/core/src/libca/core/bytes.cpp:150-184 | Reading succeeds with v after n bytes exactly when those bytes are what was put for v. |
| `Varint.EncodeIff` | libca/core/src/libca/core/bytes.cpp:327-343 | What is put for a number is the one shortest row of seven-bit digits, least significant first, that makes it up. |
| `Varint.UnderflowIff` | libca/core/src/libca/core/bytes.cpp:150-184 | Underflow is reported exactly for a proper beginning of some encoding. |
| `Varint.PutVar` | libca/core/src/libca/core/bytes.cpp:327-343 | Appends the shortest encoding within the reserved bytes. |
| `Varint.Bytes.GetVar` | libca/core/src/libca/core/bytes.cpp:150-184 | The cursor moves over what was read and stays on an error. |
| `SignedVarint.SignedReadBack32` | libca/core/src/libca/core/bytes.cpp:150-167 | A signed 32-bit number put by zigzag and varint is read back, whatever follows. |
| `SignedVarint.SignedReadBack64` | libca/core/src/libca/core/bytes.cpp:169-184 | The same on 64 bits. |
| `Zigzag.DecodeEncode32` | libca/core/src/libca/core/bytes.hpp:254-261 | Zigzag decoding undoes encoding on 32 bits. |
| `Zigzag.EncodeDecode32` | libca/core/src/libca/core/bytes.hpp:254-261 | Zigzag encoding undoes decoding on 32 bits. |
| `Zigzag.Interleaves32` | libca/core/src/libca/core/bytes.hpp:248-256 | Numbers from zero up go to the even numbers, negative ones to the odd. |
| `Zigzag.DecodeEncode64` | libca/core/src/libca/core/bytes.hpp:264-271 | The same on 64 bits. |
| `Zigzag.EncodeDecode64` | libca/core/src/libca/core/bytes.hpp:264-271 | Encoding undoes decoding on 64 bits. |
| `Zigzag.Interleaves64` | libca/core/src/libca/core/bytes.hpp:264-266 | The even and odd halves on 64 bits. |

## Left out

- HttpReader.Http1Reader.FillBuffer: an error of the connection is final; a connection that delivers again after an error or end is not modelled.
- `Http1ChunkedBodyWriter` moves and `flush`, `buffered_len`, `body_info`: accessors.
- Server, client, sockets, TLS, deadlines and thread pools: foreign calls and timing.
- UTF-8 validation and arena interning in CSV and INI: strings are byte sequences.
- `Url.Parse`: recognition of IPv6 text is a parameter, known only to accept hosts with a colon and to keep accepting them in lower case.
- URL accessors (`target`, `authority`, effective port): each reads one component.
- OpenSSL and CNG backends, GCM, `secure_zero` and constant-time behaviour.
- Arithmetic inside the hash compression functions and Keccak rounds: they are parameters.
- Sha2Hashers.Hasher.GetHash: the digest is a sequence of words; storing them as bytes and hexadecimal digits is not modelled.
- Sha3.SpongeHasher.GetHash: the read-out of the state is a parameter, like the permutation.
- Sha2.SixWordsIff: the failing compression is a counter, since the fixed one of SHA-512 is not modelled.
- MD5 and SHA-1: the same skeleton as SHA-256.
- File-system operations other than the glob matcher and its scan; `glob_root` and path conversion.
- Glob.ScanOneLevel: takes the directory listing as given, and the final sort of the matches is not modelled.
- LRU cache: the statistics do not wrap; the callback is the list of its arguments.
- GB18030: the sampling loop over a foreign codec, the double-byte table and the text generation. The largest pointer is that of the last sample.
- Gb18030.LookupCpByPointer: requires a pointer at or above the first start, because below it the search has no range and the source raises an error.
- INI reader and writer, typed access (`get_int`, `get_double`, `get_bool`), `sections`, `get_or`, `clear`: documents start from well-formed record lists.
- Byte buffers beyond varints: growth, slices and fixed-width numbers.
- Containers that wrap the standard library, Result/Option machinery, processes, crash dumps, environment.
