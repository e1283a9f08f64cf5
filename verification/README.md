# Verification of the framing, parsing, paging and login protocols

This project models the parts of the repository whose correctness depends on unbounded input or on
whole runs, and proves what those parts are for. `dafny verify dfyconfig.toml` checks everything.

| module | what it models |
|---|---|
| `Wrappers`, `Sequences`, `Sets`, `Division` | options, parts and concatenations of sequences, sizes of sets, remainders |
| `Bits` | the 32-bit JavaScript operators and big-endian lengths |
| `FrameStream` | decoding a byte stream frame by frame, for any framing that more bytes cannot change |
| `GrpcWeb`, `GrpcWebOutcomes` | the gRPC-Web encoder, both decoders and the loop that reassembles a chunked response; what each kind of frame does, from its bytes |
| `SandboxServer` | the length-prefixed request loop of the sandbox server, as a class with its read buffer |
| `Text` | `split`, `join`, `trim` and the order of text |
| `Csv`, `CsvPrinting` | the cursor parser for CSV; a printer, the round trip, the split-based reading, totality |
| `LdapEscaping`, `LdapGroups` | filter and DN escaping, unescaping, splitting DNs, reading group names |
| `OidcPending` | the bounded, lazily evicted, single-use table of pending logins, against its full history |
| `WebhookDrain`, `WebhookSignature` | draining the staged webhook queue under a lock, alone and concurrently; the signature comparison |
| `SyncJob` | the platform's loop over the pages of a connector, its stored cursor, and what follows for any connector |
| `PostgresPaging`, `PostgresSync` | keyset and incremental paging over whole runs; incremental paging under the sync job |
| `MySqlQuery`, `MySqlPaging`, `MySqlSync` | the statement text and its reading; offset paging and the high-water mark; both under the sync job |
| `LinkHeader` | the `Link` header parser |
| `EtlMerge` | the deduplication merge of the ETL example |
| `StepGraph` | cycle detection on the step graph of a pipeline |
| `ExpressionParser`, `ExpressionLevels`, `ExpressionTokens`, `ExpressionErrors` | the operator-precedence parser for pipeline expressions, a printer, both round trips; the grammar by levels; what a parse keeps of its tokens; its errors |
| `ExpressionEvaluator` | evaluation and its depth bound |

Loops and updates in place are methods and classes with loops, arrays and fields. Each is proved equal to
a function of its input or old state, and the theorems are about that function. Where the code throws,
the result is a datatype with the error in it.

Abstracted as parameters, with the law that is needed stated where it is used: JSON text and trailer text
(`GrpcWeb.Codec`, `SandboxServer.Protocol`), UTF-8 decoding of bytes above 127 (`LdapEscaping.Utf8`), HMAC
verification and record mapping (`WebhookDrain.Config`), `parseFloat` and `String` on numbers
(`MySqlPaging.Reading`), clocks, and the answers of the database proxies.

## Where the code and its comments differ

The model follows the code.

- The two gRPC-Web decoders treat a truncated tail differently: the whole-buffer decoder looks at the flag
  and reads a trailer before its bounds check. `GrpcWeb.DecodersAgree` says exactly on which buffers.
- The CSV parser is documented to skip empty lines at the end of the file; it drops every row that is one
  empty field, anywhere, a quoted one included. `CsvPrinting.RoundTripExact`.
- `escapeDnValue` applies its leading and its trailing rule to the value of one space, which therefore does not
  round-trip. `LdapEscaping.DnRoundTrip`.
- The Postgres connector's comments say that advancing the cursor by the raw rows avoids fetching the same rows
  again. Over a proxy that ignores `cursor_last_id` a group of a page or more is fetched for ever.
  `PostgresPaging.IgnoringRunEndsExactly`.
- The same connector compares keys by number to avoid errors of text order; keys above 2^53 are then no longer told
  apart. `PostgresPaging.HonouringRunsExactly`, `PostgresPaging.LargeKeyIsLost`.
- The MySQL connector's comments say that the final page captures the high-water mark of the run. When the row count is a
  multiple of the batch size that page is empty. With a mark set all rows of the run are then due again, in every
  following job until their number changes; without one the stored offset keeps them from being read again. `MySqlSync.RepeatsExactly`,
  `MySqlSync.RepeatsForEver`.
- The webhook connector's comments say that ids after the cursor are read; the cursor is ignored and the queue is always
  read from its front.
- The sandbox server's frames end in a newline; the reader skips that byte without looking at it. A request that is
  the JSON text `null`, or one whose reply is too long for the header, makes the handler throw. `SandboxServer.CrashesExactly`.
- RFC 8288 allows several relation types in one `rel` parameter; the REST connector finds `next` only alone.
  `LinkHeader.RelListRead`.
- The comment at the head of the expression evaluator says that trees are at most fifty nodes deep. The parser bounds its nested
  calls by fifty instead, and the evaluator the depth of what it visits by a hundred. `ExpressionParser.SumsAreParsed`,
  `ExpressionEvaluator.EvaluateExactly`.
- The gRPC-Web error for an unknown flag names an offset in the buffer that is being decoded, which depends on how the
  response was cut into chunks. `GrpcWeb.OffsetDependsOnCut`.

## Model

| member | source | states |
|---|---|---|
| `Bits.MaskedBytesAreDigits` | packages/sdk/src/grpc-client.ts:96-99 | the four shift-and-mask header bytes are the base-256 digits of every length below 2^32, and of the length modulo 2^32 above |
| `Bits.ShiftedLengthIsBigEndian` | packages/sdk/src/grpc-client.ts:271-275 | the signed shift-and-or expression followed by `>>> 0` is the positional value of the four bytes, for all bytes, although `<<` and the ors go through negative 32-bit numbers |
| `Bits.BigEndianRoundTrip` | docker/sandbox/src/server.js:22-23 | a length written as four big-endian bytes reads back as itself over the whole unsigned 32-bit range |
| `Bits.BigEndianBytesRoundTrip` | docker/sandbox/src/server.js:38 | every four bytes are the encoding of the one length they read as |
| `Bits.BigEndianDigits` | packages/sdk/src/grpc-client.ts:96-99 | the encoding of a length is its four base-256 digits, highest first, by division |
| `Bits.BigEndianValue` | packages/sdk/src/grpc-client.ts:271-275 | four bytes read as the sum of the bytes times 2^24, 2^16, 2^8 and 1 |
| `FrameStream.ScanAppend` | packages/sdk/src/grpc-client.ts:344-367 | for any framing that is stable under more input: decoding a prefix and then its leftover with more bytes equals decoding everything at once, and a failure is not changed by later bytes |
| `FrameStream.LeftoverIsDry` | packages/sdk/src/grpc-client.ts:370-376 | what a successful decode leaves over holds no complete frame, so decoding it once more yields nothing |
| `GrpcWeb.EncodeDataFrame` | packages/sdk/src/grpc-client.ts:89-102 | the buffer filled in place is flag 0, the big-endian payload length modulo 2^32 and the payload, which below 2^32 bytes is the encoding of the data frame |
| `GrpcWeb.EncodeStream` | packages/sdk/src/grpc-client.ts:415-418 | the collected request body is one data frame for each message, in order |
| `GrpcWeb.DecodeFramesIncremental` | packages/sdk/src/grpc-client.ts:265-307 | messages, consumed count, or the error and the offset of its frame, exactly as scanning complete frames from the front gives them |
| `GrpcWeb.LengthField` | packages/sdk/src/grpc-client.ts:271-275 | reads the length at any offset without leaving the buffer |
| `GrpcWeb.DecodeAllDataFrames` | packages/sdk/src/grpc-client.ts:104-143 | messages or error of the whole-buffer loop, which looks at the flag and takes its view of a trailer before its bounds check |
| `GrpcWeb.Combine` | packages/sdk/src/grpc-client.ts:356-359 | leftover and chunk are copied behind one another into a new buffer |
| `GrpcWeb.ReadStream` | packages/sdk/src/grpc-client.ts:344-379 | for any chunks, the reader yields what one decode of the whole stream yields; if that throws, the reader throws the same error for the same frame, names its offset in the buffer it was found in, and has yielded exactly the messages of the chunks before the one that completes the bad frame; the pass over the last leftover yields nothing |
| `GrpcWeb.IncrementalIsFraming` | packages/sdk/src/grpc-client.ts:268-278 | the verdict on the first frame never changes when more bytes arrive, and every frame makes progress |
| `GrpcWeb.DecodeFrames` | packages/sdk/src/grpc-client.ts:265-307 | bytes written from any list of frames, then any incomplete frame, decode to the meaning of that list: messages in order up to the first frame that throws |
| `GrpcWeb.Decompose` | packages/sdk/src/grpc-client.ts:268-278 | every buffer is a list of complete frames followed by an incomplete one |
| `GrpcWeb.ConsumedIsLongestFramePrefix` | packages/sdk/src/grpc-client.ts:261-263 | the consumed count is the length of the longest prefix that consists of complete frames |
| `GrpcWeb.StreamRoundTrip` | packages/sdk/src/grpc-client.ts:413-418 | encoding any messages and decoding with either decoder gives exactly the messages and consumes the whole body |
| `GrpcWeb.DecodersAgree` | packages/sdk/src/grpc-client.ts:104-143 | the two decoders give the same on every buffer, except when complete frames are followed by at least five bytes of an incomplete frame whose flag is not the data flag; there the whole-buffer decoder throws, and the error is stated |
| `GrpcWeb.TruncatedTrailer` | packages/sdk/src/grpc-client.ts:112-114 | a concrete buffer on which they differ: a trailer cut short behind its header |
| `GrpcWeb.ReadChunk` | packages/sdk/src/grpc-client.ts:355-367 | one turn of the reader keeps: everything complete has been yielded, the leftover is exactly the unconsumed end |
| `GrpcWeb.ReadFailed` | packages/sdk/src/grpc-client.ts:355-364 | a chunk whose decode throws makes the reader fail as the whole stream does |
| `GrpcWeb.ReadFinished` | packages/sdk/src/grpc-client.ts:370-376 | after the last chunk the yielded messages are those of the whole stream and the leftover decodes to nothing |
| `GrpcWeb.ChunkingDoesNotMatter` | packages/sdk/src/grpc-client.ts:341-343 | two ways of cutting one stream give the same messages when it decodes; when it does not, both fail with the same error for the same frame, one having yielded a prefix of the other, and they name the same offset if and only if the buffer in which the frame is found starts at the same place of the stream |
| `GrpcWeb.OffsetDependsOnCut` | packages/sdk/src/grpc-client.ts:297 | a message and then a frame with an unknown flag: the buffer, and with it the offset in the error text, starts elsewhere when they come in one chunk than when they come in two |
| `GrpcWebOutcomes.FrameLayout` | packages/sdk/src/grpc-client.ts:89-102 | a written frame is its flag byte, four length bytes given by division, and the payload |
| `GrpcWebOutcomes.TrailerFails` | packages/sdk/src/grpc-client.ts:286-291 | flag 0x80 and a trailer of non-zero status: both decoders throw that status and message at the frame, with no message from it, whatever follows |
| `GrpcWebOutcomes.TrailerPasses` | packages/sdk/src/grpc-client.ts:286-291 | flag 0x80 and status 0: both decoders yield nothing and go on behind the frame |
| `GrpcWebOutcomes.DataFails` | packages/sdk/src/grpc-client.ts:300-302 | flag 0x00 and a payload that does not parse: both decoders throw the parse error |
| `GrpcWebOutcomes.DataPasses` | packages/sdk/src/grpc-client.ts:300-302 | flag 0x00 and a payload that parses: both decoders yield its message and go on behind the frame |
| `GrpcWebOutcomes.OtherFlagFails` | packages/sdk/src/grpc-client.ts:296-298 | every other flag: both decoders throw the error for an unknown flag |
| `GrpcWebOutcomes.CutShort` | packages/sdk/src/grpc-client.ts:109-131 | fewer bytes than the header or than its length field says: the incremental decoder waits; the whole-buffer decoder waits only for a data frame and throws a range error on a trailer and the unknown flag on any other |
| `GrpcWebOutcomes.FirstFailureEnds` | packages/sdk/src/grpc-client.ts:265-307 | a list of frames whose first failing one is number i decodes to the messages before it and the error of that frame, which starts behind the sizes of the frames before |
| `GrpcWebOutcomes.StatusExactly` | packages/sdk/src/grpc-client.ts:286-291 | over any list of frames decoding ends with a given non-zero status and message if and only if some trailer has them and every frame before it is a data frame that parses or a trailer of status 0 |
| `GrpcWebOutcomes.StatusReported` | packages/sdk/src/grpc-client.ts:344-379 | so does the chunked reader, however the bytes are cut |
| `SandboxServer.Connection.constructor` | docker/sandbox/src/server.js:27-31 | a new connection has received, answered and kept nothing |
| `SandboxServer.Connection.OnData` | docker/sandbox/src/server.js:33-83 | after any chunk the connection has answered exactly what it has received so far and kept exactly the unfinished frame, or it has thrown what the first bad request makes it throw: a TypeError on null, a RangeError on a reply of 2^32 bytes or more |
| `SandboxServer.Connection.HandleFrame` | docker/sandbox/src/server.js:38-82 | one frame is cut off the buffer and answered; an unparsable one is skipped; the JSON text null and a reply that is too long end the handler |
| `SandboxServer.Connection.Dispatch` | docker/sandbox/src/server.js:53-81 | exactly one reply is appended, Pong for ping, Drained for drain and NotImplemented for any other method, if and only if its length fits the header; otherwise none |
| `SandboxServer.Connection.WriteFrame` | docker/sandbox/src/server.js:20-25 | the bytes on the socket stay the frames of the replies in order; a body of 2^32 bytes or more writes nothing and throws |
| `SandboxServer.RequestsIsFraming` | docker/sandbox/src/server.js:37-43 | the verdict on the first request frame does not change when more bytes arrive |
| `SandboxServer.WrittenFramesAreAnswered` | docker/sandbox/src/server.js:36-82 | whatever `writeFrame` produced is decoded again: one reply for each parsable body in order, up to the first body that makes the handler throw, and it throws what that body makes it throw; an unfinished frame behind them changes nothing |
| `SandboxServer.CrashesExactly` | docker/sandbox/src/server.js:20-82 | the handler throws if and only if some body is the JSON text null or a request whose reply has 2^32 bytes or more |
| `SandboxServer.FrameIsAnswered` | docker/sandbox/src/server.js:45-81 | one written frame, by its body: skipped if it does not parse, a TypeError on null, Pong for ping, Drained for drain, NotImplemented for any other method, and a RangeError instead if that reply has 2^32 bytes or more; then what is behind it |
| `SandboxServer.Exchange` | docker/sandbox/src/server.js:27-83 | for any chunking of any stream the replies and the exception are those of the stream in one piece, and the socket carries the frames of the replies |
| `SandboxServer.Serve` | docker/sandbox/src/server.js:18-83 | the same, and chunks that carry the written frames of any bodies and an unfinished frame, cut in any way, get one reply for each parsable body in order up to the first crash |
| `Csv.ParseQuotedField` | plugins/connector-csv/src/index.ts:210-232 | value and position of a quoted field, doubled quotes undone, also when the closing quote is missing |
| `Csv.EndOfLine` | plugins/connector-csv/src/index.ts:159-190 | the row ends behind CRLF or LF, behind a lone CR only after an unquoted field, and otherwise where it stands |
| `Csv.ParseRow` | plugins/connector-csv/src/index.ts:131-200 | fields and position of a row, or the field-limit error, through the nested loops |
| `Csv.ParseCSV` | plugins/connector-csv/src/index.ts:79-119 | all rows without the blank ones; with a header row it is the first of them and the others are the rows, without one the headers are col_0, col_1 and so on, as many as the first row has fields; or the field-limit error |
| `Csv.DecimalReads` | plugins/connector-csv/src/index.ts:116-117 | the number in a generated header is written in decimal digits that stand for it, without a zero in front |
| `Csv.RowFrom` | plugins/connector-csv/src/index.ts:131-200 | a row has between 1 and 1000 fields, moves strictly forward inside the text and never passes its end |
| `CsvPrinting.QuotedReads` | plugins/connector-csv/src/index.ts:210-232 | a quoted field reads back what doubling its quotes printed, wherever it stands |
| `CsvPrinting.UnclosedRow` | plugins/connector-csv/src/index.ts:210-232 | a quote that is never closed takes the rest of the text, doubled quotes undone |
| `CsvPrinting.JunkEndsRow` | plugins/connector-csv/src/index.ts:156-168 | behind a closing quote any character but the delimiter or a line ending ends the row where it stands, a lone CR too |
| `CsvPrinting.RowReads` | plugins/connector-csv/src/index.ts:131-200 | a printed row is read back field by field, with the field limit exactly at 1000 |
| `CsvPrinting.RoundTrip` | plugins/connector-csv/src/index.ts:79-119 | any table, printed by the rules of section 2 of RFC 4180 with any optional quotes, LF or CRLF on each line and with or without the last line ending, parses to its rows without those that are one empty field; a row of more than 1000 fields raises the error |
| `CsvPrinting.RoundTripExact` | plugins/connector-csv/src/index.ts:95-99 | the parser gives back exactly the table if and only if no row is one empty field and none has more than 1000 fields; it throws if and only if one has; and if none has, it gives back the rows that are not one empty field |
| `CsvPrinting.QuotedBlankIsLost` | plugins/connector-csv/src/index.ts:95-98 | a concrete table that is lost: a quoted empty field |
| `CsvPrinting.UnquotedRow` | plugins/connector-csv/src/index.ts:169-191 | on text without quotes a row is its line split at the delimiter |
| `CsvPrinting.UnquotedText` | plugins/connector-csv/src/index.ts:86-100 | on text without quotes the cursor parser equals: split at CR and LF, drop empty lines, split each line at the delimiter |
| `CsvPrinting.EveryTextParses` | plugins/connector-csv/src/index.ts:86-100 | totality: on every text the rows are non-empty spans of 1 to 1000 fields laid end to end that either reach the end of the text or stop at a row over the field limit |
| `LdapEscaping.FilterIsPerChar` | plugins/auth-provider-ldap/src/index.ts:286-293 | the five chained global replacements are one substitution of each character alone (section 3 of RFC 4515) |
| `LdapEscaping.FilterIsSafe` | plugins/auth-provider-ldap/src/index.ts:286-293 | the result has no asterisk, parenthesis or NUL in it, and every backslash starts a two-digit hexadecimal escape |
| `LdapEscaping.FilterRoundTrip` | plugins/auth-provider-ldap/src/index.ts:351-383 | the unescaper inverts the filter escape on every string |
| `LdapEscaping.DnIsPerChar` | plugins/auth-provider-ldap/src/index.ts:296-304 | the eight chained replacements are one substitution of each character alone |
| `LdapEscaping.EscapedIsPieces` | plugins/auth-provider-ldap/src/index.ts:295-315 | an escaped value is a list of plain characters, character escapes and hexadecimal escapes, with the leading and trailing rules applied to the ends |
| `LdapEscaping.UnescapeRfc4514` | plugins/auth-provider-ldap/src/index.ts:351-383 | the loop with its pending bytes computes the unescaped string for any text |
| `LdapEscaping.UnescapeText` | plugins/auth-provider-ldap/src/index.ts:351-383 | unescaping any plain characters, character escapes and hexadecimal escapes of any bytes gives the characters, and for each run of hexadecimal escapes what its bytes decode to as a whole |
| `LdapEscaping.HexRoundTrip` | plugins/auth-provider-ldap/src/index.ts:360-372 | any text, beyond ASCII too, written as the hexadecimal escapes of its bytes is read back, for every decoder that inverts the encoding |
| `LdapEscaping.HexDigits` | plugins/auth-provider-ldap/src/index.ts:366-368 | the hexadecimal digits are 0 to 9 and a to f in either case, with their values, and no other character |
| `LdapEscaping.HexRun` | plugins/auth-provider-ldap/src/index.ts:360-372 | a run of hexadecimal escapes is decoded as a whole from the bytes that its digits spell, first digit first |
| `LdapEscaping.CapitalsRead` | plugins/auth-provider-ldap/src/index.ts:366-368 | the texts `\2C` and `\C3\A9`, in capitals, are the byte 0x2c and the bytes 0xc3 0xa9 |
| `LdapEscaping.HalfEscapes` | plugins/auth-provider-ldap/src/index.ts:362-376 | a backslash at the end stands for itself, and before a single hexadecimal digit it makes the digit plain |
| `LdapEscaping.DnIsSafe` | plugins/auth-provider-ldap/src/index.ts:295-315 | no quote, plus, comma, semicolon, angle bracket, backslash or NUL is left unescaped, and the value neither begins with a plain # or space nor, but for the single space, ends with a plain space (section 2.4 of RFC 4514) |
| `LdapEscaping.DnRoundTrip` | plugins/auth-provider-ldap/src/index.ts:295-315 | unescaping inverts the DN escape if and only if the value is not one single space; that one is escaped twice and comes back as a backslash and a space |
| `LdapGroups.SplitOnUnescapedComma` | plugins/auth-provider-ldap/src/index.ts:323-341 | the parts between unescaped commas of any string |
| `LdapGroups.SplitKeepsText` | plugins/auth-provider-ldap/src/index.ts:323-341 | for any string the parts with commas between them are the string: nothing is lost, a backslash at the end included |
| `LdapGroups.SplitRoundTrip` | plugins/auth-provider-ldap/src/index.ts:317-341 | splitting the comma-join of written RDNs gives the RDNs back, whatever the values are (sections 2.4 and 3 of RFC 4514) |
| `LdapGroups.ExtractMemberOfGroups` | plugins/auth-provider-ldap/src/index.ts:1206-1248 | an absent attribute gives no name; a single DN and a list of that one DN give the same; a written DN that names a group gives its first value; a list of such DNs gives all their first values in order |
| `LdapGroups.ListGroups` | plugins/auth-provider-ldap/src/index.ts:1217-1241 | one name at most for each DN, in order |
| `LdapGroups.GroupName` | plugins/auth-provider-ldap/src/index.ts:1230-1240 | the trimmed, unescaped value of the first RDN, or nothing |
| `LdapGroups.GroupOfWrittenDn` | plugins/auth-provider-ldap/src/index.ts:1230-1240 | the group of a written DN is its first value exactly if and only if that is non-empty and has no white space at its ends; a single space becomes a backslash |
| `LdapGroups.GroupsRoundTrip` | plugins/auth-provider-ldap/src/index.ts:1220-1241 | a list of written DNs gives exactly their group names, in order |
| `LdapGroups.GroupsAppend` | plugins/auth-provider-ldap/src/index.ts:1220-1241 | each further DN adds its group name behind the others, or nothing |
| `LdapGroups.NoEqualsNoGroup` | plugins/auth-provider-ldap/src/index.ts:1232-1234 | a first RDN without an equals sign names no group |
| `OidcPending.OidcAuthProvider.constructor` | plugins/auth-provider-oidc/src/index.ts:367 | the table starts empty |
| `OidcPending.OidcAuthProvider.EvictExpiredRedirectUris` | plugins/auth-provider-oidc/src/index.ts:906-913 | exactly the entries that are not expired are left, by deleting while iterating |
| `OidcPending.OidcAuthProvider.GetAuthorizationUrl` | plugins/auth-provider-oidc/src/index.ts:503-518 | eviction, then refusal at 10,000 entries or the new entry for ten minutes |
| `OidcPending.OidcAuthProvider.HandleCallback` | plugins/auth-provider-oidc/src/index.ts:574-588 | rejection of a missing, unknown or expired state without a change; otherwise the entry is consumed and returned |
| `OidcPending.StepRefines` | plugins/auth-provider-oidc/src/index.ts:501-518 | every operation keeps: the table holds every live login and nothing that is not pending in the full history |
| `OidcPending.RunRefines` | plugins/auth-provider-oidc/src/index.ts:355-369 | in every run under a clock that does not go back, the table never has more than 10,000 entries and every outcome is that of a table from which nothing is evicted, with the capacity limit applied to its live logins |
| `OidcPending.PendingIsLatest` | plugins/auth-provider-oidc/src/index.ts:514-518 | what is pending for a state is its last issuance, if no callback has consumed it since |
| `OidcPending.AcceptedExactlyWhenPending` | plugins/auth-provider-oidc/src/index.ts:579-588 | a callback is accepted with a URI and nonce if and only if they are those of the latest issuance for its non-empty state, which is not consumed and not past its ten minutes |
| `OidcPending.AcceptedOnce` | plugins/auth-provider-oidc/src/index.ts:587-588 | two accepted callbacks with one state have an issuance of it between them |
| `WebhookSignature.TimingSafeEqual` | plugins/connector-webhook/src/index.ts:245-252 | the xor fold over the longer length answers whether the strings are equal |
| `WebhookDrain.FilterIsCut` | plugins/connector-webhook/src/index.ts:725-726 | filtering out the processed ids is cutting off the page if and only if no id of the page occurs again behind it |
| `WebhookDrain.FetchBatch` | plugins/connector-webhook/src/index.ts:571-765 | one call: nothing under a taken lock, nothing changed when it throws or the queue is empty; otherwise records, remaining index, deleted payloads, cursor and `hasMore` of the first page, and the lock is free again |
| `WebhookDrain.DrainLocked` | plugins/connector-webhook/src/index.ts:586-762 | the same for the part inside the lock, by the loop over the page |
| `WebhookDrain.CheckPayload` | plugins/connector-webhook/src/index.ts:650-716 | the checks on one payload in their order; a record comes only of a payload that is admitted, and the batch aborts exactly when checking the signature of a payload of admitted size and age fails |
| `WebhookDrain.InspectPage` | plugins/connector-webhook/src/index.ts:634-717 | the loop over the page: it aborts if and only if some look aborts, and otherwise collects the records of all looks and every id of the page as processed |
| `WebhookDrain.InspectExactly` | plugins/connector-webhook/src/index.ts:650-716 | a look gives record r if and only if the payload is there, is not too long, maps to r and, with verification on, is genuine and inside the replay window; it aborts if and only if the payload has an admitted size and age and its check fails |
| `WebhookDrain.WriteConserves` | plugins/connector-webhook/src/index.ts:719-730 | the index write moves exactly the page from the index to the consumed ids |
| `WebhookDrain.ActionKeeps` | plugins/connector-webhook/src/index.ts:571-765 | every single cache access of any of the concurrent calls keeps the whole invariant |
| `WebhookDrain.EveryInterleaving` | plugins/connector-webhook/src/index.ts:571-765 | under every interleaving of calls, failures and expiring payloads: consumed ids followed by the index are the original queue, at all times and after each batch; one task at most holds the lock; each batch looked at every id of its page; the results of the calls that wrote the index, with the one that a task still holds, are the batches in order, each once, and all other calls consumed nothing; a cursor comes exactly with `hasMore` |
| `WebhookDrain.RecordsFollowQueue` | plugins/connector-webhook/src/index.ts:571-765 | over every interleaving the records returned so far, in the order of the returns, are the records of one look at each id of a front of the original queue, in queue order |
| `WebhookDrain.NoIdTwice` | plugins/connector-webhook/src/index.ts:565-573 | over every interleaving no id is consumed by two batches or twice by one |
| `WebhookDrain.RecordsInOrder` | plugins/connector-webhook/src/index.ts:634-717 | the records of a batch are the mappings of its admitted payloads in page order, none left out |
| `WebhookDrain.OnlyGenuine` | plugins/connector-webhook/src/index.ts:665-700 | over every interleaving each record that was handed out is the mapping of a payload staged under a queued id that was, at one of the times of the looks, of admitted size and, with verification on, genuine and inside the replay window |
| `WebhookDrain.NothingSkipped` | plugins/connector-webhook/src/index.ts:634-639 | over every interleaving in which no payload expires, the records handed out are those of a front of the queue with every staged payload found |
| `WebhookDrain.DoneMeansDrained` | plugins/connector-webhook/src/index.ts:573-600 | over every interleaving a call that returns no more, busy and failed calls included, means that the whole queue has been consumed |
| `WebhookDrain.BusyComesBack` | plugins/connector-webhook/src/index.ts:573-584 | a call under a taken lock changes nothing and is told to come back |
| `WebhookDrain.DrainedEnds` | plugins/connector-webhook/src/index.ts:590-600 | a call on a drained queue takes the lock, is told that there is no more and releases the lock |
| `PostgresPaging.FetchBatchKeyset` | plugins/connector-postgres/src/index.ts:797-829 | the rows as they came, `hasMore` from a full page, the key of the last row as the next key of a full page and else none; or the error if and only if a key is missing |
| `PostgresPaging.RunKeyset` | plugins/connector-postgres/src/index.ts:751-829 | the loop that feeds each next key back: whatever the proxy answers from tables that change between the pages is a run of the theorems below, up to its end |
| `PostgresPaging.KeysetAscends` | plugins/connector-postgres/src/index.ts:751-829 | with arbitrary changes to the table between pages, keys are delivered in strictly ascending order, so none twice |
| `PostgresPaging.KeysetReaches` | plugins/connector-postgres/src/index.ts:774-783 | a key beyond the start of the run that is present at every page so far has been delivered or lies beyond the next cursor |
| `PostgresPaging.KeysetDeliversEveryStableRow` | plugins/connector-postgres/src/index.ts:751-829 | when a run from any stored key has ended, every row beyond that key present at each of its pages was delivered, exactly once, as it stood at one of them |
| `PostgresPaging.OnlyLastPageAgain` | plugins/connector-postgres/src/index.ts:800-813 | of what a run has delivered, the run that resumes at its stored key delivers again only rows of the last page |
| `PostgresPaging.KeysetEnds` | plugins/connector-postgres/src/index.ts:800-813 | a run over keys from a finite set has at most one page more than the set has full pages |
| `PostgresPaging.FetchBatchIncremental` | plugins/connector-postgres/src/index.ts:890-976 | the client-side filter, by number where both keys are numbers and else by text, `hasMore` from the unfiltered count, the cursor from the filtered or else the raw last row, and the errors for a missing key or column |
| `PostgresPaging.FilterExactly` | plugins/connector-postgres/src/index.ts:892-909 | with a cursor whose key is not empty, a row is dropped if and only if its column value is that of the cursor and its key is not behind: as numbers if both are numbers, else equal or smaller as text at the first different character; all others stay in order |
| `PostgresPaging.FilteredSlice` | plugins/connector-postgres/src/index.ts:890-909 | on an answer that starts inside the group of the cursor the filter leaves exactly the rows behind the cursor |
| `PostgresPaging.AdvancingRun` | plugins/connector-postgres/src/index.ts:831-976 | if every page delivers the next rows and moves behind them, the run delivers exactly the rows behind its cursor and ends, and its last page returns a cursor if and only if it does not start at the end of the table |
| `PostgresPaging.HonouringRun` | plugins/connector-postgres/src/index.ts:870-874 | over a proxy that honours `cursor_last_id` a run from any resume point delivers exactly the remaining rows, in order, and ends; its last page returns the position behind them if and only if their number is not a multiple of the batch size, and otherwise, being empty, no cursor |
| `PostgresPaging.KeyedRunHonoured` | plugins/connector-postgres/src/index.ts:870-874 | the same for tables in whose groups all keys are numbers and ascend as numbers, or none is and they ascend as text, as UUIDs do, with the order of text spelled out |
| `PostgresPaging.HonouringRunsExactly` | plugins/connector-postgres/src/index.ts:892-909 | runs with every page size and from every place deliver the remaining rows if and only if no later row of a group of equal column values is at most an earlier one in the comparison of keys |
| `PostgresPaging.RoundedKeyIsLost` | plugins/connector-postgres/src/index.ts:897-905 | two rows of a group whose keys differ as text and are one number to `Number`: resuming behind the first loses the second |
| `PostgresPaging.LargeKeyIsLost` | plugins/connector-postgres/src/index.ts:897-905 | the concrete keys 2^53 and 2^53 + 1 |
| `PostgresPaging.IgnoringRun` | plugins/connector-postgres/src/index.ts:890-909 | over a proxy that ignores it, the client-side filter alone delivers exactly the remaining rows when every group of equal column values is smaller than a page; what the last page returns as its cursor is stated |
| `PostgresPaging.KeyedRunIgnored` | plugins/connector-postgres/src/index.ts:890-909 | the same for such tables over a proxy that ignores `cursor_last_id`, when every group is smaller than a page |
| `PostgresSync.PageIsLawful` | plugins/connector-postgres/src/index.ts:911-958 | every page is the front of the rows behind its cursor, the next cursor stands behind it, and once the cursor is stored nothing of the page is due again |
| `PostgresSync.NoRowMissed` | services/ingestion/src/services/sync-service.ts:817-994 | over any number of jobs in either mode, with rows added beyond all present ones at any time and jobs dropped or lost at any page, every row has been queued or is behind the stored cursor |
| `PostgresSync.EveryRowOnce` | services/ingestion/src/services/sync-service.ts:986-993 | over any number of incremental jobs, dropped ones included, the queued rows are at all times the front of the growing table, every row once and in order, and the stored cursor is the position of the last of them |
| `PostgresSync.EveryKeyedRowOnce` | services/ingestion/src/services/sync-service.ts:986-993 | the same for tables in whose groups the keys ascend as numbers or as text, said without the comparison of the filter |
| `PostgresSync.JobStores` | services/ingestion/src/services/sync-service.ts:842-994 | a whole incremental job from any place queues exactly the rows behind its cursor and leaves the position of the last row stored; when there are none, nothing is queued and the position stays |
| `PostgresPaging.IgnoringRunEndsExactly` | plugins/connector-postgres/src/index.ts:942-958 | over such a proxy a run ends if and only if every group is smaller than a page |
| `PostgresPaging.LargeGroupNeverEnds` | plugins/connector-postgres/src/index.ts:942-955 | with a larger group the run says for ever that there is more |
| `PostgresPaging.EqualPairNeverEnds` | plugins/connector-postgres/src/index.ts:942-955 | a concrete table: two equal rows and pages of two |
| `MySqlQuery.QueryReads` | plugins/connector-mysql/src/index.ts:522-552 | for all database, table and column names, backticks included, a reader of backtick-quoted identifiers gets from the statement text exactly the names, the WHERE clause and the ORDER BY clause that were put in |
| `MySqlQuery.EscapeDoubles` | plugins/connector-mysql/src/index.ts:522-524 | every backtick of a name is doubled and every other character kept |
| `MySqlPaging.PageWords` | plugins/connector-mysql/src/index.ts:526-552 | the statement of a page word by word, and its parameters: the `since` if there is one and a column for it, then the batch size, then the offset |
| `MySqlPaging.BuildTableQuery` | plugins/connector-mysql/src/index.ts:526-552 | a database that reads the statement text, binds the parameters in order, filters, orders and cuts answers with exactly the page at the offset of the rows above `since`, in the order of the incremental column or else of the primary key |
| `MySqlPaging.FindHighWaterMark` | plugins/connector-mysql/src/index.ts:631-664 | the mark by the mixed comparison of numbers and text for any rows, NULLs skipped; on a column of one kind it is the greatest of the previous mark and the values |
| `MySqlPaging.MarkIsHighWater` | plugins/connector-mysql/src/index.ts:651-660 | on a column of numbers alone or of text alone the mixed comparison is the order of the column |
| `MySqlPaging.MarkIsGreatest` | plugins/connector-mysql/src/index.ts:631-664 | on a column of one kind no value is above the mark: as numbers, or as text by the first different character; the mark is a value or the previous one, and absent only if nothing had a value |
| `MySqlPaging.MixedMark` | plugins/connector-mysql/src/index.ts:651-660 | on a column of both kinds a number beats a text exactly when the text reads as a smaller number, and a text beats a number exactly when it follows the text of the number |
| `MySqlPaging.TextStopsNumbers` | plugins/connector-mysql/src/index.ts:651-655 | with a previous mark that is no number, no numeric value ever becomes the mark |
| `MySqlPaging.HighWaterIsGreatest` | plugins/connector-mysql/src/index.ts:631-664 | the mark is attained, bounds every value, and is absent only if nothing had a value |
| `MySqlPaging.FetchBatch` | plugins/connector-mysql/src/index.ts:809-841 | all rows are returned; a full page says that there is more and its cursor has the offset behind the page and the same `since`; a shorter one goes back to offset 0 with the mark, or has no cursor if there is none |
| `MySqlPaging.RunDelivers` | plugins/connector-mysql/src/index.ts:826-841 | the pages of a run concatenate to exactly the filtered rows in order, and the last page alone decides the `since` that it returns |
| `MySqlPaging.RunSince` | plugins/connector-mysql/src/index.ts:816-826 | the last page of a run returns the maximum of the run as `since` if and only if the row count is not a multiple of the batch size or no row has a value; on a multiple it returns `since` unchanged |
| `MySqlPaging.FullLastPageForgets` | plugins/connector-mysql/src/index.ts:816-826 | a concrete run that has brought a value and whose last page returns no cursor |
| `MySqlSync.PageIsLawful` | plugins/connector-mysql/src/index.ts:809-841 | every page is the front of what is due at its cursor, and the next cursor stands behind it |
| `MySqlSync.NoRowMissed` | services/ingestion/src/services/sync-service.ts:817-994 | over any number of jobs in either mode, with rows above all present ones added at any time and jobs dropped or lost at any page, every row has been queued or is due at the stored cursor |
| `MySqlSync.DueAfterLastPage` | services/ingestion/src/services/sync-service.ts:986-993 | what is due at the stored cursor after the last page: all rows of the run if there is a mark and the page is empty, the page itself if there is no mark and it brings none, and nothing otherwise |
| `MySqlSync.RepeatsExactly` | services/ingestion/src/services/sync-service.ts:986-993 | a stored page is due again if and only if it is the last and either there is a mark and the rows of the run fill whole pages, at least one, or there is no mark, the page has rows, and the last of them has no value |
| `MySqlSync.RepeatsForEver` | plugins/connector-mysql/src/index.ts:816-826 | with a mark and rows above it that fill whole pages, each of any number of jobs queues all of these rows again, and the mark never moves |
| `MySqlSync.OneRowRepeats` | plugins/connector-mysql/src/index.ts:816-826 | a concrete table of two rows |
| `MySqlSync.DeliveredOnce` | services/ingestion/src/services/sync-service.ts:986-993 | over any number of incremental jobs, dropped ones included, none of which ends so, the queued rows are the front of the growing table, every row once and in order, and the rest is due |
| `SyncJob.Worker.constructor` | services/ingestion/src/services/sync-service.ts:817-818 | no cursor is stored and nothing is queued |
| `SyncJob.Worker.ProcessSyncJob` | services/ingestion/src/services/sync-service.ts:817-994 | the loop over the pages: records queued, the stored cursor replaced only by a cursor that is not null, for every connector, every failure of a turn and every end of the process |
| `SyncJob.PageCovers` | services/ingestion/src/services/sync-service.ts:917-994 | a page that is queued keeps every row queued or due, and after the last one every row is queued |
| `SyncJob.NothingMissed` | services/ingestion/src/services/sync-service.ts:817-994 | for every connector that keeps three laws, over any number of jobs in either mode, with rows added at any time and jobs dropped or lost at any turn, no row is missed |
| `SyncJob.ActionInOrder` | services/ingestion/src/services/sync-service.ts:986-993 | an action keeps the queued rows the front of the table and the due rows its rest if and only if it is no full sync of a table of which something is stored, loses no records, and stores no page that is due again |
| `SyncJob.QueuedInOrder` | services/ingestion/src/services/sync-service.ts:817-994 | over any number of such actions every row is queued once, in the order of the table |
| `SyncJob.JobDelivers` | services/ingestion/src/services/sync-service.ts:842-994 | a job that is given enough turns queues exactly what is due behind its cursor, in order, and ends |
| `SyncJob.WholeJob` | services/ingestion/src/services/sync-service.ts:817-848 | a full job queues the whole table, an incremental one what is due behind the stored cursor |
| `SyncJob.JobIsActions` | services/ingestion/src/services/sync-service.ts:842-994 | every job over a growing table, whatever becomes of it, is a sequence of the actions that these theorems are about |
| `LinkHeader.ParseNextLinkHeader` | plugins/connector-rest-api/src/index.ts:486-520 | the URL of the first entry with a rel=next parameter, or nothing, for any header |
| `LinkHeader.NextUrl` | plugins/connector-rest-api/src/index.ts:503-518 | the same for one entry |
| `LinkHeader.AnyRelNext` | plugins/connector-rest-api/src/index.ts:510-517 | the loop over the parameters of an entry finds out whether one of them is rel=next |
| `LinkHeader.RelNextReads` | plugins/connector-rest-api/src/index.ts:513-514 | for any value text, white space around the equals sign and mismatched quotes included, the parameter expression matches if and only if the name is rel in any case and the value is next in any case with a quote or none on either side |
| `LinkHeader.RelListRead` | plugins/connector-rest-api/src/index.ts:513-514 | a quoted value, which section 3.3 of RFC 8288 lets be a list of relation types, is found to be next as the RFC has it if and only if it is a single type or next is not among its types |
| `LinkHeader.RelPairMissed` | plugins/connector-rest-api/src/index.ts:513-514 | in every list of two types of which the second is next, next is not found |
| `LinkHeader.RelListMissed` | plugins/connector-rest-api/src/index.ts:513-514 | the concrete parameter rel="prev next" |
| `LinkHeader.EntriesAreStretches` | plugins/connector-rest-api/src/index.ts:489-501 | any header, one whose brackets do not match too, is cut exactly at the commas before which as many angle brackets have been opened as closed |
| `LinkHeader.NextOfExactly` | plugins/connector-rest-api/src/index.ts:503-518 | any entry gives a URL if and only if it begins with that URL in angle brackets and some parameter behind it is rel=next |
| `LinkHeader.NextOfPrinted` | plugins/connector-rest-api/src/index.ts:503-518 | a printed entry is read as its URL if it has a rel=next parameter in any position |
| `LinkHeader.HeaderEntries` | plugins/connector-rest-api/src/index.ts:489-501 | a header of printed entries is split into exactly those entries, although URLs contain commas and semicolons |
| `LinkHeader.HeaderRoundTrip` | plugins/connector-rest-api/src/index.ts:486-520 | the parser of a printed header gives the first URL whose entry has a rel=next parameter, or nothing (section 3 of RFC 8288) |
| `EtlMerge.InsertionOrderedMap.constructor` | examples/multi-source-etl/src/setup.ts:490 | the map starts empty |
| `EtlMerge.InsertionOrderedMap.Get` | examples/multi-source-etl/src/setup.ts:493 | the record kept for a key |
| `EtlMerge.InsertionOrderedMap.Set` | examples/multi-source-etl/src/setup.ts:496 | a new key goes to the end, a key that is set again keeps its place |
| `EtlMerge.MergeRecords` | examples/multi-source-etl/src/setup.ts:489-500 | the merge expression over the mutable map computes the fold that the lemmas speak about |
| `EtlMerge.MergeKeepsBest` | examples/multi-source-etl/src/setup.ts:478-500 | output keys are distinct and in the order of their first occurrence; each kept record has the greatest `updatedAt`, an absent one counting lowest and the earliest winning ties |
| `EtlMerge.MergeInBatches` | examples/multi-source-etl/src/setup.ts:510-521 | merging is idempotent, and merging a first batch beforehand changes nothing |
| `StepGraph.CycleSearch.constructor` | services/pipeline/src/services/pipeline-service.ts:509-510 | nothing is visited and the stack is empty |
| `StepGraph.CycleSearch.Dfs` | services/pipeline/src/services/pipeline-service.ts:512-525 | true only if a cycle can be reached from the entry step; otherwise the step is finished, the stack is as before, visited steps are on the stack or finished, and every finished step comes after all its successors |
| `StepGraph.CycleSearch.DfsAll` | services/pipeline/src/services/pipeline-service.ts:519-521 | the same for the loop over the neighbours: afterwards all of them are finished |
| `StepGraph.CycleSearch.Enter` | services/pipeline/src/services/pipeline-service.ts:516-517 | the stack stays a walk from the entry step without repetition |
| `StepGraph.CycleSearch.Leave` | services/pipeline/src/services/pipeline-service.ts:523-524 | a step whose successors are all finished is finished in its turn |
| `StepGraph.FinishedIsAcyclic` | services/pipeline/src/services/pipeline-service.ts:513-514 | from a finished step no walk ever comes to a step for the second time |
| `StepGraph.HasCycle` | services/pipeline/src/services/pipeline-service.ts:508-528 | for any graph and entry step the answer is true if and only if some walk from the entry step comes to a step twice |
| `ExpressionParser.Parser.constructor` | services/pipeline/src/services/expression-evaluator.ts:244-248 | the parser starts at the first token at depth 0 |
| `ExpressionParser.Parser.ParseExpression` | services/pipeline/src/services/expression-evaluator.ts:272-292 | the tree, position and depth, or the error, of the operator loop, in which equal powers associate to the left |
| `ExpressionParser.Parser.ParseUnary` | services/pipeline/src/services/expression-evaluator.ts:294-302 | prefix operators bind tighter than all infix ones and do not count as depth |
| `ExpressionParser.Parser.ParsePrimary` | services/pipeline/src/services/expression-evaluator.ts:304-361 | literals, parentheses, calls and field paths, with the four errors |
| `ExpressionParser.Parser.ExpectRParen` | services/pipeline/src/services/expression-evaluator.ts:262-270 | the closing parenthesis, or the error at the end or at another token |
| `ExpressionParser.Parser.ParseArgs` | services/pipeline/src/services/expression-evaluator.ts:335-338 | the arguments up to the closing parenthesis; the commas may be missing |
| `ExpressionParser.Parser.ParsePath` | services/pipeline/src/services/expression-evaluator.ts:344-355 | the names of a field path, or the error behind a dot |
| `ExpressionParser.ParseTokens` | services/pipeline/src/services/expression-evaluator.ts:59-65 | the tree of the whole token list, or the error, one for leftover tokens included |
| `ExpressionParser.RoundTrip` | services/pipeline/src/services/expression-evaluator.ts:272-361 | every well-formed tree, printed with parentheses only where the powers need them, is parsed back to itself if and only if parsing it nests at most fifty calls; otherwise the depth error is raised |
| `ExpressionParser.ParsedIsPrinted` | services/pipeline/src/services/expression-evaluator.ts:272-361 | whatever token list is accepted, printing its tree and parsing that gives the same tree, with no more parentheses than the accepted list had |
| `ExpressionParser.ParsableExactly` | services/pipeline/src/services/expression-evaluator.ts:272-361 | a tree is the parse of some token list if and only if it is well-formed and its canonical form nests at most fifty calls |
| `ExpressionParser.SumsAreParsed` | services/pipeline/src/services/expression-evaluator.ts:273-276 | sums of any length, whose trees are as high as they are long, are accepted |
| `ExpressionLevels.LevelsParse` | services/pipeline/src/services/expression-evaluator.ts:223-302 | the grammar by levels, loosest first: or, and, equality, order, sums, products; every tree of it, laid out without parentheses, is parsed to itself, left-associative within a level, if right operands and arguments nest at most 49 deep, and else the depth error is raised |
| `ExpressionLevels.PairsParse` | services/pipeline/src/services/expression-evaluator.ts:223-237 | for all operands that are no binary trees and all pairs of binary operators, x p y q z is (x p y) q z if q is of the same or a looser level and else x p (y q z) |
| `ExpressionLevels.ProductFirst` | services/pipeline/src/services/expression-evaluator.ts:223-237 | a + b * c is a + (b * c), and a - b - c is (a - b) - c |
| `ExpressionLevels.OtherPrefixesFail` | services/pipeline/src/services/expression-evaluator.ts:294-302 | an operator other than ! and - in front of an operand is an unexpected token |
| `ExpressionTokens.NothingDropped` | services/pipeline/src/services/expression-evaluator.ts:272-361 | the tokens of an accepted list, without parentheses and commas, are the leaves and operators of its tree from left to right: nothing is dropped, repeated or moved |
| `ExpressionErrors.Parenthesised` | services/pipeline/src/services/expression-evaluator.ts:320-325 | a tree in parentheses is that tree; without the closing one the end is unexpected, and a comma there is not the wanted parenthesis |
| `ExpressionErrors.LeftOver` | services/pipeline/src/services/expression-evaluator.ts:59-65 | a closing parenthesis or comma behind a whole expression is left over |
| `ExpressionErrors.BrokenPaths` | services/pipeline/src/services/expression-evaluator.ts:304-361 | the errors of the empty list, of a dot with nothing or no name behind it, and of a token that begins no operand |
| `ExpressionErrors.LooseCommas` | services/pipeline/src/services/expression-evaluator.ts:332-339 | commas between arguments may be left out and one may stand behind the last; an open call ends unexpectedly |
| `ExpressionEvaluator.EvaluateExactly` | services/pipeline/src/services/expression-evaluator.ts:429-510 | for all values and operators evaluation throws the depth error if and only if the part of the tree that it visits, without what the logical operators skip and what is behind an error, is deeper than the bound; otherwise it gives what it gives without a bound |
| `ExpressionEvaluator.HeightDecides` | services/pipeline/src/services/expression-evaluator.ts:429-431 | a tree of height 101 at most never meets the bound; a tree without logical operators that evaluates without an error of its own meets it if and only if it is higher |
| `ExpressionEvaluator.LongSumsFail` | services/pipeline/src/services/expression-evaluator.ts:429-431 | sums of more than 101 terms are accepted by the parser and stopped by the evaluator, shorter ones are not |
| `ExpressionEvaluator.SkippedIsNotCounted` | services/pipeline/src/services/expression-evaluator.ts:454-464 | behind a false left operand of `&&` a right operand of any height does no harm |
| `ExpressionEvaluator.NotNegates` | services/pipeline/src/services/expression-evaluator.ts:443 | `!` gives the negated truth of its operand |
| `ExpressionEvaluator.LogicalOperators` | services/pipeline/src/services/expression-evaluator.ts:455-464 | the two logical operators skip the right operand when the left one decides, and else give its truth, or its error |
| `ExpressionEvaluator.OtherOperators` | services/pipeline/src/services/expression-evaluator.ts:466-467 | every other operator gets both values, the left one evaluated first, and the first error wins |
| `ExpressionEvaluator.CallsGetValues` | services/pipeline/src/services/expression-evaluator.ts:499-508 | a known function gets the values of all its arguments in order; an unknown one is an error |

## Left out

- JSON syntax, UTF-8 above ASCII, the two trailer expressions and percent-decoding: parameters, as said above.
- Strings are sequences of Dafny characters, not of UTF-16 code units.
- HTTP calls, deadlines and the wrapping of failures as `NetworkError` in the gRPC client; unary and bidirectional calls.
- Sandbox requests whose `method` is not a string, and failures of memory: of buffers, and of `JSON.stringify` at the engine's limit on the
  length of strings, which is below 2^32.
- The text of cursors (JSON, base64) and the errors for a cursor of another mode, in all connectors.
- CSV downloads, page slicing by offset, and the mapping of rows to records.
- `buildFilter`: it passes the escaped value to `String.replace` as a replacement text, in which a dollar sign is special. The
  filter theorems are about `escapeLdapFilterValue`.
- LDAP group search, binding and the remaining login flow; OIDC token exchange, nonce and signature checks behind the table lookup.
- WebhookDrain.EveryInterleaving: the lock's time to live, the ingestion service that appends to the index, and cache calls that fail
  after the index write are not modelled, because the first needs real time and the others lie outside this repository's connector.
- Postgres offset and custom-query paging, and retries.
- PostgresPaging.KeysetDeliversEveryStableRow: keyset keys, and in the incremental theorems column values, are integers: they stand for
  values of any type by their place in the order of the database, which alone is compared. Incremental keys, which the connector
  compares itself, are any text with any number.
- PostgresPaging.HonouringRun: and the other theorems about single incremental runs are about a table that does not change during the run;
  `PostgresSync` lets it grow.
- MySqlPaging.FindHighWaterMark: numbers are exact, without the rounding of `Number` and of DECIMAL columns; dates are their ISO text.
- SyncJob.NothingMissed: rows are only added, never changed or removed, and the jobs of one connector do not overlap; progress reports,
  the batch jobs that write the queued records, and the removal of stale rows after a full sync are not modelled.
- MySQL custom queries, and a proxy that orders equal column values differently from page to page.
- Paging of the REST connector, whose delivery over a run depends on the remote service.
- EtlMerge.MergeKeepsBest: timestamps are integers instead of strings, since only their order matters.
- The tokenizer of pipeline expressions and the limit of 2,000 characters: the model starts at the tokens. The operators on values and the
  built-in functions are parameters of the evaluator.
- How the step graph is built from nested steps, and the remaining validation of a pipeline definition.
- The quality check of the ETL example: a partition by a predicate.
- Service wiring, schemas, user interfaces and seed scripts: no property beyond their own text.
