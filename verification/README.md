# Verified core of the application server

The server speaks FastCGI to a web server, WebSocket to browsers, stores sessions as JSON
files behind a cache, and hands every request an arena from a fixed pool. This project models
the parts of it that are protocol machines or data structures and proves what they are for.

| component | files | main results |
|---|---|---|
| FastCGI record engine | `FastCgiRecords`, `FastCgiSpec`, `FastCgiEngine`, `FastCgiStreams`, `FastCgiDeferral`, `FastCgiAdmission`, `FastCgiOutput`, `FastCgiAnswers`, `FastCgiWire`, `FastCgiBytes` | consecutive `process_buffer` calls on any split of a stream give the same result (`AnySplit`), when a deferred call is harmless (`DeferralIsHarmless`), requests do not interfere (`Demultiplexed`), admission dichotomy (`Admission`), output discipline over whole runs (`OutputDiscipline`, `WireDiscipline`), answers that are final (`ResponseArrives`, `TimeoutArrives`) |
| JSON | `JsonSpec`, `JsonRoundTrip`, `JsonText`, `JsonNumbers`, `JsonCodec` | `parse_json` inverts `to_json` if and only if every number is below a million in magnitude (`RoundTrip`); printed text is well formed and laid out as promised (`QuotedIsString`, `ArrayLayout`), numerals are worth what they say (`Fraction`, `MillionText`) |
| WebSocket | `WebSocketSpec`, `WebSocketStreams`, `WebSocketBytes`, `WebSocketClient` | frame codec for every length form and mask, what a split into reads can change (`AnySplit`, `LossIff`), reassembly (`Reassembly`) |
| File cache and sessions | `FileCache`, `FileStore`, `Session` | accounting and eviction, coherence with the disk (`Store.Read`), persistence (`SaveThenLoad`) |
| Arenas, outbound buffer, waiting queue | `Arena`, `Outbound`, `Waiting`, `FastCgiQueue` | mask alignment, disjoint cleared blocks, conserved pool (`UseAll`), exact delivery (`ExactDelivery`), no lost waiter (`NoLostWaiter`), every entry visited (`EntryIsVisited`), what a visit achieves with one pool for all (`VisitAchieves`) |
| Form codecs | `UrlQuery`, `MultipartSpec`, `MultipartRoundTrip`, `Multipart` | inverse laws for percent-encoding, query strings and multipart bodies |

Code that updates objects, buffers or indices step by step is modelled by classes and loops
(`FastCgiEngine`, `JsonCodec`, `WebSocketClient`, `FileCache`, `FileStore`, `Session`, `Arena`,
`Outbound`, `Waiting`, `UrlQuery`, `Multipart`). Each of these is proved equal to a function
on values, and the laws are proved about the functions, over all inputs, all runs or all
interleavings.

Bytes are integers from 0 to 255 and sizes are unbounded, except in `Arena`, where 64-bit
wrap-around is written out. What the operating system decides is an input: results of `send`,
clock readings, modification times, addresses returned by `malloc`, the iteration order of
hash tables, the initial environment of a request, the text of a response.

`FastCgiBytes`, `WebSocketBytes`, `JsonText` and parts of the form codecs state what single
records, frames and texts do in bytes that are written out, so that the laws about streams and
round trips, which speak of named constants, are anchored in the numbers of the standards.

Where the code departs from what one would expect, the model follows the code:

- A BEGIN_REQUEST that finds no arena makes `process_buffer` return before it drops the records
  it has already applied, so they are applied again on the retry (`DeferralReplays`, with the
  duplicated body in `DeferralCanDuplicateBody`). `DeferralIsHarmless` says exactly when a
  request does not notice; for one that is unanswered or failed this can be read off its
  counters (`DeferralByCounters`). These laws are about a retry that takes place.
- `handle_io` closes a connection at the end of an event without an active worker exactly if
  nothing is unsent and it is marked closed or no request is unanswered; finished requests are
  released first, so that they asked to keep the connection plays no part (`EventClosesIff`).
  A new connection does not outlive its first read if and only if the read completes no record
  that addresses a request or there is no arena (`FirstReadClosesIff`): a first BEGIN_REQUEST
  without an arena is told to wait and its connection is closed, so the retry never takes place
  (`WaitingAndClosed`). `FastCgiStreams.AnySplit` is about consecutive calls of
  `process_buffer` on one connection.
- A pass over the waiting queue counts the connections it serves, not the arenas they take. A
  visited connection goes on exactly if the arenas left are enough for it, and otherwise takes
  all of them (`VisitAchieves`), so a connection behind one that needs more than m arenas is as
  it was after m passes with a free arena each (`PassedOver`). Every entry is visited
  (`EntryIsVisited`); that it is served is not promised.
- A waiting connection whose own read finds an arena keeps its entry in the queue and gets a
  second one when it waits again (`StaleEntry`). The queue is free of duplicates in every state
  of a run if and only if this does not happen (`AlwaysDistinctIff`).
- An answered request is released and its id can then name a new request, which is opened by any
  record, also a late one of the old request, and gets its own END_REQUEST (`IdIsUsedAgain`).
  The output laws are therefore stated per request instance.
- A request that is ready but not yet answered is announced again by each further record of its
  own (`ReadyOnceIff` says exactly when it is not).
- A request may be announced ready without any BEGIN_REQUEST; `Admission` covers that.
- Integers of a million and more print with an exponent that `parse_number` does not read
  (`MillionIsLost`).
- In a JSON object with a repeated key the first value wins (`Emplace`).
- A data frame in the middle of a fragmented WebSocket message silently replaces the unfinished
  message, where section 5.4 of RFC 6455 forbids the interleaving
  (`UnfinishedMessageIsDropped`). Among the frames it
  handles there is no other way to lose one (`MessagesAddUp`).
- A WebSocket client that a read leaves closed is erased, so a message behind a close frame or an
  orphan continuation is scheduled when it comes in the same read and lost when it comes in a
  later one (`CloseThenText`, `EndThenMessage`; `LossIff` says exactly when something is lost).
- `Arena::alloc` lets sizes pass whose sum with the cursor wraps around. It clears every block
  before it returns, and the cleared range is inside the arena if and only if nothing wrapped
  (`Arena.Alloc`, with an input in `WrappedAlloc`). The model ends such a call as an overrun.
- A form field that ends in CRLF loses these two bytes (`ContentSurvives`).
- `build_query` writes an empty key and `parse_query_string` ignores it (`MapRoundTrip`).

## Model

| member | source | states |
|---|---|---|
| FastCgiRecords.NextRecordOfEncode | src/fastcgi.cpp:86-100 | A record written with any padding and reserved byte is read back from the front of any buffer, with its exact total length (section 3.3 of the FastCGI Specification 1.0). |
| FastCgiRecords.DecodeSplits | src/fastcgi.cpp:84-99 | Decoding a, keeping the rest and decoding it with b gives the records, rest and bad-version status of decoding a + b. |
| FastCgiRecords.DecodeEncodeAll | src/fastcgi.cpp:29-43 | Decoding what the record writer produced gives exactly the records written, in front of whatever follows. |
| FastCgiRecords.AppendRecord | src/fastcgi.cpp:29-43 | Appends one whole version-1 record without padding and leaves the bytes before it alone. |
| FastCgiRecords.AppendStdoutText | src/fastcgi.cpp:45-58 | The chunk loop appends exactly the records of the split of the body, all of which fit their length field. |
| FastCgiRecords.AppendEndRequest | src/fastcgi.cpp:60-66 | Appends one END_REQUEST record with the application status in network order and the protocol status. |
| FastCgiRecords.StdoutRecordsSplit | src/fastcgi.cpp:45-58 | The split is non-empty STDOUT records of at most 65535 bytes and one empty terminator, and their contents concatenate to the body. |
| FastCgiRecords.StdoutRecordsCount | src/fastcgi.cpp:45-58 | A body of n bytes takes ceil(n / 65535) records besides the terminator. |
| FastCgiRecords.Aggregate | src/websockets.cpp:308-322 | The pointer loop returns the concatenated STDOUT contents of the records a response decodes to. |
| FastCgiRecords.SplitThenAggregate | src/websockets.cpp:308-322 | Aggregating a split body followed by END_REQUEST returns the body, for every length. |
| FastCgiSpec.PairsShape | src/fastcgi.cpp:150-171 | For every content, well formed or not, the name-value loop changes only the environment and its byte count, and fails the request at most once. |
| FastCgiEngine.ReadLength | src/fastcgi.cpp:9-27 | Reads the one- or four-byte length form, truncated ones included, and always advances on non-empty input. |
| FastCgiEngine.Request.constructor | src/request.cpp:3-18 | A new request has no flags, no body, no counted bytes and the initial environment. |
| FastCgiEngine.Request.Fail | src/fastcgi.cpp:68-76 | Writes one END_REQUEST and sets both flags, unless the request was answered before. |
| FastCgiEngine.Request.TakeParams | src/fastcgi.cpp:150-171 | The index-driven pair loop has the effect of the pair-by-pair specification on request and output. |
| FastCgiEngine.Request.Apply | src/fastcgi.cpp:115-220 | The switch on the record type changes the request and appends records as the one-record effect says. |
| FastCgiEngine.Connection.CurrentRequest | src/fastcgi.cpp:101-113 | Finds or allocates the request of an id; fails exactly when it is unknown and no arena is left. |
| FastCgiEngine.Connection.ApplyTo | src/fastcgi.cpp:115-220 | Only the addressed request changes; the output stays a list of whole records. |
| FastCgiEngine.Connection.HandleRecord | src/fastcgi.cpp:114-228 | One turn of the loop, with its ready event; returns early exactly for a BEGIN_REQUEST without an arena. |
| FastCgiEngine.Connection.ProcessBuffer | src/fastcgi.cpp:78-232 | Requests, output, ready events, leftover bytes, close status and waiting flag are those of the stream semantics, for every buffer and every arena supply. |
| FastCgiEngine.Connection.ExpireOverdue | src/fcgi-connection.cpp:199-211 | Each overdue unanswered request is failed with exactly one OVERLOADED END_REQUEST, others are untouched. |
| FastCgiEngine.Connection.Respond | src/wasapi-server.cpp:35-88 | An unanswered request gets its whole text as STDOUT records and one END_REQUEST; an answered one gets nothing. |
| FastCgiEngine.Connection.ReleaseFinished | src/fcgi-connection.cpp:586-606 | Exactly the listed requests that are answered, failed or aborted leave the table; the output and all others stay. |
| FastCgiStreams.RunIsFold | src/fastcgi.cpp:78-232 | The offset loop is: decode the stream, apply its records in order, stop at the first record that must wait. |
| FastCgiStreams.SplitAnywhere | src/fastcgi.cpp:78-232 | With arenas available, processing a, appending b and processing again equals one call on a + b in every observable, bad versions included. |
| FastCgiStreams.AnySplit | src/fastcgi.cpp:78-232 | Every way of cutting a stream into reads ends in the same requests, output, ready events, leftover bytes and status. |
| FastCgiStreams.HandleKeepsId | src/fastcgi.cpp:115-220 | A record changes, and answers for, only the request it is addressed to. |
| FastCgiStreams.FoldSeenBy | src/fastcgi.cpp:101-228 | What one id observes of any interleaving is what its own records do to it alone. |
| FastCgiStreams.Demultiplexed | src/fastcgi.cpp:101-228 | In any interleaving, request k ends with the state, ready events and records it gets when only the records with id k are processed. |
| FastCgiStreams.DemultiplexedStream | src/fastcgi.cpp:78-232 | The same for the bytes of a stream cut into any reads. |
| FastCgiDeferral.DeferralAtFrontIsNoOp | src/fastcgi.cpp:130-135 | A deferred BEGIN_REQUEST at offset 0 changes nothing but the waiting flag. |
| FastCgiDeferral.DeferralReplays | src/fastcgi.cpp:130-135 | In general the retry applies every record the deferred call had reached a second time, then the remaining ones. |
| FastCgiDeferral.DeferralBehindSkipped | src/fastcgi.cpp:130-135 | When the reached records address no request, call and retry together equal one call with arenas available, in the whole connection. |
| FastCgiDeferral.DeferralCanDuplicateBody | src/fastcgi.cpp:229-230 | A concrete stream whose deferral doubles the body of another request. |
| FastCgiDeferral.AllOrNothing | src/fastcgi.cpp:101-113 | While arenas run out, a request gets all of its records of a call or none of them. |
| FastCgiDeferral.ReplayIff | src/fastcgi.cpp:115-227 | Going over records a request has already had changes it, its output or its ready events unless every one is spent: the request is not ready, and the record only sets flags, or the request is failed, or nothing of the record fits an answered request, or its pairs are empty and already there. |
| FastCgiDeferral.DeferralIsHarmless | src/fastcgi.cpp:130-135 | For every request, answered or not: its view when the retry is back at the deferred record is that of one call with arenas if and only if it has no state or all its reached records are spent; then the rest of the retry is the same for it too. |
| FastCgiDeferral.DeferralByCounters | src/fastcgi.cpp:130-135 | For a request unanswered or failed at the deferral: the replay goes unnoticed if and only if none of its records was reached, it is failed, or it is not ready and neither byte counter moved. |
| FastCgiAdmission.DecodeLengthOfEncode | src/fastcgi.cpp:9-27 | Both length forms of section 3.4 of the FastCGI Specification 1.0 decode to the encoded length and leave the bytes behind. |
| FastCgiAdmission.TakeWholePairs | src/fastcgi.cpp:150-171 | A record of whole pairs is taken entirely with the last value of a name winning, or refused with one OVERLOADED END_REQUEST when the total passes the limit. |
| FastCgiAdmission.RefusedStaysRefused | src/fastcgi.cpp:68-76 | Nothing a refused request receives later makes it ready or makes it write. |
| FastCgiAdmission.Play | src/fastcgi.cpp:139-227 | From any pending request, the remaining script either ends in one ready event with everything taken in, or in one refusal, decided by the limits. |
| FastCgiAdmission.Admission | src/fastcgi.cpp:139-227 | A new request among any other traffic: within both limits it is ready exactly once with the last-wins environment, the concatenated input and the exact counters, and writes nothing; otherwise it is never ready and gets exactly one OVERLOADED END_REQUEST. |
| FastCgiAdmission.AnsweredIsSilent | src/fastcgi.cpp:222-227 | After its answer a request neither becomes ready nor writes, whatever records follow. |
| FastCgiAdmission.RefusedIffPairsExceed | src/fastcgi.cpp:152-171 | The name-value loop refuses an unanswered request exactly when some whole pair, after all before it, needs more than the room left. |
| FastCgiAdmission.ReadyOnceIff | src/fastcgi.cpp:222-227 | A ready, unanswered request is not announced again if and only if no record of its own follows, or the first one is an abort, input past its limit, or pairs past theirs. |
| FastCgiAdmission.AbortIsFinal | src/fastcgi.cpp:206-215 | An ABORT_REQUEST on an unanswered request yields exactly one REQUEST_COMPLETE END_REQUEST and no ready event or record after it, in any interleaving. |
| FastCgiOutput.StepKeepsDiscipline | src/fastcgi.cpp:101-228 | One record keeps the invariant that every released instance of an id was answered once and the current one has no record yet, or a complete answer and is marked responded. |
| FastCgiOutput.ExpireKeepsDiscipline | src/fcgi-connection.cpp:199-211 | Timeouts keep that invariant. |
| FastCgiOutput.AnswerKeepsDiscipline | src/fcgi-connection.cpp:318-346 | Normal responses keep that invariant. |
| FastCgiOutput.ReleaseKeepsDiscipline | src/fcgi-connection.cpp:586-606 | A release, also of a failed or aborted request, never drops an unanswered instance and keeps that invariant. |
| FastCgiOutput.OutputDiscipline | src/fcgi-connection.cpp:318-346 | For every run of reads, arena shortages, aborts, hang-ups, timeouts, responses and releases, the output decodes as exactly the records written, the records of an id are those of its instances in order, and each instance has no record or STDOUT records and one final END_REQUEST. |
| FastCgiAnswers.EndRequestStatuses | src/fastcgi.cpp:60-66 | The application status and the protocol status can be read back from the eight bytes of the body, for every value. |
| FastCgiAnswers.ExpireSeenBy | src/fcgi-connection.cpp:199-211 | Seen by any id, a timeout step writes exactly one OVERLOADED END_REQUEST for a listed unanswered request and changes nothing of any other. |
| FastCgiAnswers.AnswerSeenBy | src/wasapi-server.cpp:35-88 | Seen by any id, a response writes its own text and one END_REQUEST, and nothing to other requests or to an answered one. |
| FastCgiAnswers.AnswerIsFinal | src/fcgi-connection.cpp:586-606 | No later run of reads, timeouts, responses and releases changes, drops or reorders an instance that has its answer, even when its id is used again. |
| FastCgiAnswers.ResponseArrives | src/wasapi-server.cpp:35-88 | After any further run, the records of the instance that was responded to are the split of its text and one END_REQUEST, and read back as that text. |
| FastCgiAnswers.TimeoutArrives | src/fcgi-connection.cpp:199-211 | After any further run, the only record of an instance that timed out unanswered is one OVERLOADED END_REQUEST. |
| FastCgiAnswers.IdIsUsedAgain | src/fcgi-connection.cpp:586-606 | A concrete run, an abort, its release and a late abort, in which one id gets two END_REQUEST records. |
| FastCgiWire.ReceivedIsPrefix | src/fastcgi.cpp:29-43 | Any prefix of the output decodes to a prefix of its records and is never bad. |
| FastCgiWire.WireDiscipline | src/fcgi-connection.cpp:361-396 | In every run in which engine events append, flushes with any send results interleave and a failed send closes the connection, the bytes sent and buffered are exactly the output of the engine and the web server sees a prefix of its records. |
| FastCgiWire.ReceivedInParts | src/fcgi-connection.cpp:145-159 | Two reads leave an open connection where one read of both does, unless the first ends in a record of another version; then it is marked closed and later input is not looked at. |
| FastCgiWire.OpensNoneIff | src/fastcgi.cpp:101-135 | A call on a connection without requests opens none exactly when there is no arena or no record that addresses a request. |
| FastCgiWire.FirstReadClosesIff | src/fcgi-connection.cpp:448-472 | A new connection is closed after its first read without a word if and only if the read completes no addressed record or there is no arena. |
| FastCgiWire.WaitingAndClosed | src/fcgi-connection.cpp:608-617 | One BEGIN_REQUEST without an arena is told to wait, and its connection is closed in the same event. |
| FastCgiWire.EventClosesIff | src/fcgi-connection.cpp:586-617 | At the end of an event without an active worker the connection is closed if and only if nothing is unsent and it is marked closed or every request is answered. |
| FastCgiWire.OneRequestKeeps | src/fcgi-connection.cpp:455-471 | A request still in the table keeps its connection open if it is unanswered or asked to keep it. |
| FastCgiBytes.OneRecord | src/fastcgi.cpp:84-100 | A record of literal bytes, 1 and the type first, alone in the buffer is applied and leaves nothing behind. |
| FastCgiBytes.BeginBytes | src/fastcgi.cpp:117-138 | Type 1 sets the flags of its request, the connection being kept by the lowest bit of the third body byte; a short body is skipped. |
| FastCgiBytes.AbortBytes | src/fastcgi.cpp:206-215 | Type 2 marks its request and answers it with status 0 unless it was answered. |
| FastCgiBytes.ParamsEndBytes | src/fastcgi.cpp:144-147 | An empty record of type 4 ends the parameters and may announce the request. |
| FastCgiBytes.ShortPairBytes | src/fastcgi.cpp:148-172 | Type 4 with one short pair sets it and counts it, or ends the request with status 2 past the limit; a failed request takes nothing. |
| FastCgiBytes.CutOffLengths | src/fastcgi.cpp:9-27 | Lengths that are cut off are read as 0. |
| FastCgiBytes.InputBytes | src/fastcgi.cpp:179-205 | Type 5 appends its content to the body and counts it, ends the request with status 2 past the limit, and ends the input when empty. |
| FastCgiBytes.OtherBytes | src/fastcgi.cpp:216-219 | Every other type leaves the connection as it is. |
| FastCgiBytes.OpensBytes | src/fastcgi.cpp:101-113 | The first such record of an unknown id opens a request with clear flags, no body and the initial environment. |
| FastCgiBytes.ClosesIffBoundary | src/fastcgi.cpp:86-94 | The call closes if and only if, going by the lengths, it comes to a record whose complete header does not start with 1. |
| FastCgiBytes.EndRequestBytes | src/fastcgi.cpp:60-66 | END_REQUEST on the wire: type 3 and eight bytes with the status in the fifth. |
| FastCgiBytes.ResponseBytes | src/wasapi-server.cpp:80-87 | A response on the wire: its text in a record of type 6, an empty one, and END_REQUEST with status 0. |
| FastCgiBytes.TimeoutBytes | src/fcgi-connection.cpp:205-210 | A timeout on the wire: END_REQUEST with status 2, the request being failed and answered. |
| JsonRoundTrip.StringRoundTrip | src/dynamic_variable.cpp:395-487 | `parse_string` inverts `json_escape` on every byte string, in front of any text. |
| JsonRoundTrip.NumberRoundTrip | src/dynamic_variable.cpp:489-527 | Every integer below a million in magnitude is read back from its text. |
| JsonRoundTrip.ExponentStops | src/dynamic_variable.cpp:489-527 | The text of every larger integer is not consumed: the parser stops in front of the exponent. |
| JsonRoundTrip.ArrayRoundTrip | src/dynamic_variable.cpp:531-563 | A printed array parses to its values, or fails exactly when some number inside has an exponent. |
| JsonRoundTrip.ObjectRoundTrip | src/dynamic_variable.cpp:565-606 | The same for objects, whatever the order of the members. |
| JsonRoundTrip.ValueRoundTrip | src/dynamic_variable.cpp:608-659 | A printed value of any depth in front of any text parses to the value and leaves exactly that text, or fails exactly when some number has an exponent. |
| JsonRoundTrip.RoundTrip | src/dynamic_variable.cpp:661-801 | `parse_json(to_json(v, pretty, indent))` succeeds if and only if all numbers are below a million in magnitude, and then returns v, for both styles, every indent and every iteration order. |
| JsonRoundTrip.FieldsAreMembers | src/dynamic_variable.cpp:720-794 | With distinct keys the parsed object has exactly the members of the stored one. |
| JsonRoundTrip.MillionIsLost | src/dynamic_variable.cpp:489-527 | 1000000 does not come back and 999999 does. |
| JsonRoundTrip.TextIsNotEmpty | src/dynamic_variable.cpp:795-801 | The printed text is never empty. |
| JsonRoundTrip.TrailingText | src/dynamic_variable.cpp:661-678 | Behind a value only white space is accepted; otherwise parsing fails at the first other byte. |
| JsonRoundTrip.UnicodeEscape | src/dynamic_variable.cpp:395-487 | Four hex digits in either letter case become the shortest UTF-8 form of their code point, which decodes back to it. |
| JsonText.QuotedIsString | src/dynamic_variable.cpp:679-719 | A printed string is a string of section 7 of RFC 8259: quotes around characters that need no escape or have a legal one, no byte below 0x20. |
| JsonText.EscapeAllAppends | src/dynamic_variable.cpp:682-717 | Strings are escaped byte by byte. |
| JsonText.ShortEscapes | src/dynamic_variable.cpp:686-706 | The two-character escapes of quote, backslash and the five control characters that have one. |
| JsonText.ControlEscapes | src/dynamic_variable.cpp:707-713 | Other control bytes are printed as \u and four lower-case hex digits. |
| JsonText.PlainBytes | src/dynamic_variable.cpp:714-716 | All other bytes are printed as they are. |
| JsonText.EscapeLetters | src/dynamic_variable.cpp:410-433 | What the eight one-letter escapes are read as. |
| JsonText.BadEscapes | src/dynamic_variable.cpp:434-474 | Any other letter, and \u without four hex digits, is refused. |
| JsonText.StringBytes | src/dynamic_variable.cpp:403-486 | A quote ends a string, a backslash starts an escape, every other byte stands for itself, and a text that ends in a string is refused. |
| JsonText.SpaceBytes | src/dynamic_variable.cpp:376-382 | The six bytes that are skipped as white space, and no others. |
| JsonText.LiteralTexts | src/dynamic_variable.cpp:726-745 | The texts of null, true, false and empty arrays and objects. |
| JsonText.ArrayLayout | src/dynamic_variable.cpp:743-765 | Compact arrays have commas between their elements and nothing else; pretty ones have a line per element, indented one step further than the closing bracket. |
| JsonText.ObjectLayout | src/dynamic_variable.cpp:766-792 | The same for objects, with a key, a colon and, in pretty text, a blank before each value. |
| JsonText.CompactHasNoBlanks | src/dynamic_variable.cpp:720-801 | The compact text of any value has no white space outside its strings. |
| JsonText.CompactHasNoControl | src/dynamic_variable.cpp:720-801 | The compact text of any value holds no byte below 0x20. |
| JsonNumbers.Fraction | src/dynamic_variable.cpp:489-527 | A numeral with a point, an optional sign and digits on at least one side is read up to its last digit, and its value times ten to the digits behind the point is the integer of all its digits. |
| JsonNumbers.WholeNumber | src/dynamic_variable.cpp:489-527 | A numeral without a point is worth its digits, with either sign. |
| JsonNumbers.NoNumber | src/dynamic_variable.cpp:514-525 | A sign alone or a point without digits is refused. |
| JsonNumbers.MillionText | src/dynamic_variable.cpp:731-737 | From a million on the text is one digit, up to five decimals without trailing zeros and an exponent of at least two digits, and its six digits are the nearest to the integer, even on a tie. |
| JsonCodec.JsonCursor.SkipSpace | src/dynamic_variable.cpp:376-382 | Moves the cursor over white space and no further. |
| JsonCodec.JsonCursor.TryMatch | src/dynamic_variable.cpp:384-393 | Consumes white space and the expected byte, or only the white space. |
| JsonCodec.JsonCursor.ReadString | src/dynamic_variable.cpp:395-487 | Result and cursor are those of the string grammar on the unread text, failures included. |
| JsonCodec.JsonCursor.ReadNumber | src/dynamic_variable.cpp:489-527 | Result and cursor are those of the number grammar on the unread text, whose values `JsonNumbers.Fraction` and `WholeNumber` give. |
| JsonCodec.JsonCursor.ReadArray | src/dynamic_variable.cpp:531-563 | The element loop agrees with the recursive grammar. |
| JsonCodec.JsonCursor.ReadObject | src/dynamic_variable.cpp:565-606 | The member loop agrees with the recursive grammar, the first of equal keys winning. |
| JsonCodec.JsonCursor.ReadValue | src/dynamic_variable.cpp:608-659 | The dispatch agrees with the grammar for every text. |
| JsonCodec.ParseText | src/dynamic_variable.cpp:661-678 | Success, value and reported error position for every text. |
| JsonCodec.AppendQuoted | src/dynamic_variable.cpp:679-719 | Appends the escaped string. |
| JsonCodec.AppendValue | src/dynamic_variable.cpp:720-794 | Appends the text of a value in either style at any depth. |
| JsonCodec.PrintThenParse | src/dynamic_variable.cpp:661-801 | Printing then parsing with the loops succeeds exactly on values with plain numbers and returns the value. |
| WebSocketStreams.MaskTwice | src/websockets.cpp:582-584 | Masking is its own inverse (section 5.3 of RFC 6455). |
| WebSocketStreams.LengthFieldRoundTrip | src/websockets.cpp:557-574 | Each of the three length forms reads back as the length written. |
| WebSocketStreams.ParseOfEncode | src/websockets.cpp:550-584 | Every legal encoding of a frame, with any reserved bits, length form and mask, parses to the frame and its exact length. |
| WebSocketStreams.BuildFrameRoundTrip | src/websockets.cpp:117-141 | A built frame parses to fin, op & 15 and the payload, leaving exactly what follows. |
| WebSocketStreams.ShortestForm | src/websockets.cpp:117-141 | No legal length form is shorter than the chosen one, and only the chosen one is as short. |
| WebSocketStreams.LoopSplits | src/websockets.cpp:548-635 | Two consecutive passes of the frame loop on one client, over a and then with b appended, end where one pass over a + b does. |
| WebSocketStreams.AnySplit | src/websockets.cpp:548-662 | However the stream is cut into reads, the client ends where one read of the bytes up to and including the read that completes a session-ending frame would take it; later reads do not take place. |
| WebSocketStreams.NothingLate | src/websockets.cpp:548-662 | When no bytes come after that read, the outcome is that of one read of everything. |
| WebSocketStreams.LossIff | src/websockets.cpp:548-662 | The scheduled messages and the pongs are prefixes of those of one read of everything, and equal to them if and only if, among the frames of the whole stream behind those completed in time, there is no ping and no final frame of a message. |
| WebSocketStreams.EndThenMessage | src/websockets.cpp:657-662 | For every session-ending frame and message behind it: scheduled in the same read, lost in a read of its own. |
| WebSocketStreams.CloseThenText | src/websockets.cpp:657-662 | The same for the bytes 88 00 and 81 01 41. |
| WebSocketStreams.EndThenPong | src/websockets.cpp:594-596 | Late bytes that hold only a pong make no difference at all. |
| WebSocketStreams.ControlsOnlyPong | src/websockets.cpp:589-596 | Pings and pongs add the echoing pongs in order and change nothing else. |
| WebSocketStreams.OneMessage | src/websockets.cpp:597-633 | A message fragmented in any way is delivered once, with its first opcode and all its data. |
| WebSocketStreams.Reassembly | src/websockets.cpp:548-635 | For every sequence of fragmented messages with control frames between the fragments, every mask and length form and every split into reads, the scheduled messages and pongs are exactly the sent ones in order. |
| WebSocketStreams.ClosedIff | src/websockets.cpp:585-633 | The connection is marked closed exactly by a close frame or a continuation with nothing to continue. |
| WebSocketStreams.UnfinishedMessageIsDropped | src/websockets.cpp:597-614 | A new message in the middle of another is delivered whole, and the unfinished one disappears. |
| WebSocketStreams.MessagesAddUp | src/websockets.cpp:585-633 | For every sequence of frames, messages started are those scheduled, the one still open and those replaced by a data frame that came while one was open. |
| WebSocketBytes.MaskBits | src/websockets.cpp:582-584 | Each bit of a masked byte is flipped exactly if the bit of the mask byte at its index modulo 4 is set. |
| WebSocketBytes.OneFrame | src/websockets.cpp:550-584 | A frame of literal bytes: FIN and opcode from the first byte, length from the second and the two or eight behind it, mask and payload in their places. |
| WebSocketBytes.MessageBytes | src/websockets.cpp:597-607 | Opcode 1 or 2 with FIN, as in 0x81 and 0x82, schedules that opcode with the payload. |
| WebSocketBytes.FirstFragmentBytes | src/websockets.cpp:597-614 | Opcode 1 or 2 without FIN starts a message. |
| WebSocketBytes.ContinuationBytes | src/websockets.cpp:615-633 | Opcode 0 continues the message, schedules it with FIN, and closes when there is none. |
| WebSocketBytes.FragmentedBytes | src/websockets.cpp:597-633 | 0x01 or 0x02 followed by 0x80 schedules one message with both payloads. |
| WebSocketBytes.CloseBytes | src/websockets.cpp:585-588 | Opcode 8 closes. |
| WebSocketBytes.PingBytes | src/websockets.cpp:589-593 | Opcode 9 is answered with an unmasked frame that starts with 0x8A, has the shortest length form and the same payload. |
| WebSocketBytes.IgnoredBytes | src/websockets.cpp:594-596 | Opcode 10 and the reserved ones change nothing. |
| WebSocketBytes.ServerFrameBytes | src/websockets.cpp:117-141 | A built frame in literal bytes for every opcode and length. |
| WebSocketClient.BuildWsFrame | src/websockets.cpp:117-141 | The pushed bytes are the frame of the codec. |
| WebSocketClient.GetBigEndian | src/websockets.cpp:570-572 | The shift loop computes the big-endian value. |
| WebSocketClient.Unmask | src/websockets.cpp:582-584 | The in-place loop leaves the payload combined with the repeated mask. |
| WebSocketClient.Client.Dispatch | src/websockets.cpp:585-633 | The reaction to one frame, on all fields of the client. |
| WebSocketClient.Client.NextFrame | src/websockets.cpp:550-584 | The frame at the front of the buffer, or nothing when it is incomplete. |
| WebSocketClient.Client.ProcessFrames | src/websockets.cpp:548-635 | The loop leaves the state and the bytes of the frame semantics. |
| WebSocketClient.Client.ReadAll | src/websockets.cpp:446-662 | The reads of a client, which end when one of them leaves it closed. |
| FileCache.TotalWithout | src/fileio.cpp:26-34 | The total is one entry's size plus the total of the others, whichever entry is taken. |
| FileCache.Cache.RemoveEntry | src/fileio.cpp:26-34 | Removes the entry and keeps the counter exact. |
| FileCache.Cache.InsertEntry | src/fileio.cpp:36-46 | Replaces the entry and keeps the counter exact. |
| FileCache.Cache.EvictTtl | src/fileio.cpp:48-65 | Removes exactly the entries unchecked for longer than the time to live. |
| FileCache.Cache.EvictSize | src/fileio.cpp:67-78 | Ends within the limit; leaves everything if it fits, otherwise removes only entries no newer than every survivor and the last of them not in vain; never removes a strictly newest entry that fits. |
| FileCache.Cache.MaybeMaintain | src/fileio.cpp:80-87 | Expires on every tenth call and otherwise leaves the table alone. |
| FileCache.Cache.ReadFresh | src/fileio.cpp:120-131 | First critical section: a hit exactly for an entry checked less than a second ago. |
| FileCache.Cache.Revalidate | src/fileio.cpp:140-153 | Second critical section: a hit exactly for an unchanged mtime; otherwise the entry is gone. |
| FileCache.Cache.Store | src/fileio.cpp:163-168 | Third critical section: a strictly newest insertion survives eviction and its text is returned; otherwise the looked-up entry is the stored or an empty one. |
| FileCache.Cache.NoteWrite | src/fileio.cpp:181-190 | The entry of a write is stored if it fits and dropped if it does not, evicting oldest first. |
| FileCache.Interleave | src/fileio.cpp:115-192 | In every interleaving of critical sections the total equals the sum of sizes, sizes equal content lengths and the limit holds whenever the mutex is free. |
| FileStore.SameMtimeSameText | src/fileio.cpp:140-153 | Under the mtime assumption an entry with the current mtime holds the current text. |
| FileStore.Store.Read | src/fileio.cpp:115-169 | The text is that of the entry exactly if one is left by the maintenance of every tenth call and was checked less than a second ago; otherwise it is the text on disk, an unchanged entry is confirmed, a new or changed file that fits is stored and is there afterwards, and only what storing must evict goes. The text is always that of some instant less than a second back, and every entry stays coherent. |
| FileStore.Store.ReadStale | src/fileio.cpp:133-168 | A file that is there: an entry with its mtime is confirmed and served, otherwise the file is loaded, stored unless too large, and returned. |
| FileStore.Store.Write | src/fileio.cpp:171-192 | The disk gets the text, the cache afterwards holds that text exactly when it fits, and only what storing must evict goes. |
| FileStore.Store.ChangeDisk | src/fileio.cpp:115-192 | Writes and removals by other programs between calls keep every entry a past version of its file. |
| Session.PathsDiffer | src/session.cpp:14-20 | Different ids never share a file. |
| Session.PathText | src/session.cpp:14-20 | The path is the directory, one slash unless it ends in one or is empty, the id and .json. |
| Session.Save | src/session.cpp:98-108 | Writes the compact JSON text under the id's path, or fails for an empty id and changes nothing. |
| Session.Load | src/session.cpp:69-86 | Goes by the text the file had at an instant less than a second back: restores its parsed value if it is non-empty and parses, otherwise fails and leaves the session alone. |
| Session.Traffic | src/fileio.cpp:115-192 | Any reads, writes, evictions and external changes that leave a file alone keep it served with the same text. |
| Session.SaveThenLoad | src/session.cpp:69-108 | A load after a save under the same id, with any such traffic between, succeeds exactly when the session has plain numbers, and restores an equal value from cache, by revalidation or from disk. |
| Arena.MaskRoundsDown | src/memory.cpp:32 | Clearing the k low bits rounds down to a multiple of 2^k. |
| Arena.AlignUpIsLeast | src/memory.cpp:30-32 | Unless the addition wraps, the mask form is the least aligned address not below the cursor. |
| Arena.AlignUpWraps | src/memory.cpp:30-32 | When the addition wraps, the result is address 0. |
| Arena.Arena.Reset | src/memory.cpp:23-26 | Empties the arena. |
| Arena.Arena.Alloc | src/memory.cpp:28-42 | The bounds test passes exactly when the new offset in 64-bit arithmetic is within the capacity; the cleared range then lies in the arena if and only if nothing wrapped. Without wrap-around the call succeeds exactly when the aligned block fits, the block is zeroed, every other byte keeps its value, and blocks since the last reset stay aligned, in bounds and pairwise disjoint. |
| Arena.Arena.Clear | src/memory.cpp:38-40 | Zeroes the given range and nothing else. |
| Arena.WrappedAlloc | src/memory.cpp:28-42 | A request for 2^64 - 64 bytes in an arena of 4096 with 64 taken passes the bounds test, and its clearing leaves the arena. |
| Arena.PoolRunKeepsValid | src/memory.cpp:69-96 | For every sequence of gets and holder releases, each used arena has exactly one holder, free ones none, and the counter is the number of free slots. |
| Arena.FirstFree | src/memory.cpp:72-80 | The lowest free slot; none exactly when all are in use. |
| Arena.ArenaManager.CreateArenas | src/memory.cpp:53-67 | All slots start free, under their own index, arenas whose malloc failed having no capacity. |
| Arena.ArenaManager.Get | src/memory.cpp:69-82 | Takes the lowest free slot; fails exactly when the counter is zero. |
| Arena.ArenaManager.Release | src/memory.cpp:84-96 | Frees a used slot and empties its arena; a free slot or null is ignored. |
| Arena.UseAll | src/memory.cpp:69-96 | On the objects: for every sequence of gets and holder releases, slots and counter are those of the pool and no two holders have the same arena. |
| Outbound.FlushConserves | src/fcgi-connection.cpp:361-396 | A flush only moves bytes from the buffer to the wire, in order. |
| Outbound.FlushStops | src/fcgi-connection.cpp:361-396 | Up to the send that stopped it every answer took something; then everything was sent and the buffer is empty, or that answer was a would-block and the connection stays open, or it was a failure and the connection is closed. |
| Outbound.ExactDelivery | src/fcgi-connection.cpp:337-396 | After any mixture of appends and flushes with any send results, bytes sent followed by the unsent buffer are all bytes appended, in order. |
| Outbound.Connection.FlushConnection | src/fcgi-connection.cpp:361-396 | The send loop terminates and leaves the buffer, position and closed flag of the specification. |
| Outbound.Connection.Enqueue | src/fcgi-connection.cpp:337-346 | Appends behind everything unsent. |
| Waiting.PassShape | src/fcgi-connection.cpp:78-106 | A pass visits at most the initial entries from the front, serves at most its budget, and puts those still waiting behind the unvisited ones in their old relative order. |
| Waiting.PassLosesNone | src/fcgi-connection.cpp:78-106 | A pass keeps every open waiting connection queued. |
| Waiting.NoLostWaiter | src/fcgi-connection.cpp:552-584 | In every state reachable by reads, writes, passes, accepts and closes, each open connection that waits for an arena is in the queue. |
| Waiting.TurnMeans | src/fcgi-connection.cpp:86-104 | A turn costs budget exactly when an open connection stops waiting, and puts an entry back exactly when its connection waits on. |
| Waiting.DistinctIff | src/fcgi-connection.cpp:574-577 | From a queue without duplicates an event leaves one if and only if it makes no connection start to wait that still has an entry. |
| Waiting.AlwaysDistinctIff | src/fcgi-connection.cpp:552-584 | Over a whole run no state has a duplicate if and only if no event does that. |
| Waiting.StaleEntry | src/fcgi-connection.cpp:574-577 | A concrete run that queues a connection twice. |
| Waiting.EntryIsVisited | src/fcgi-connection.cpp:78-106 | Whatever else happens, the entry at position p moves up by at least the arenas each pass finds available, and its turn comes by the time more than p have been; what the turn achieves is another matter. |
| Waiting.EventLoop.OnReadable | src/fcgi-connection.cpp:574-578 | A connection that starts to wait is queued once. |
| Waiting.EventLoop.ServeFront | src/fcgi-connection.cpp:86-104 | One turn of the pass. |
| Waiting.EventLoop.ProcessWaiting | src/fcgi-connection.cpp:78-106 | The loop keeps all waiters, and the queue afterwards is the unvisited part and then the kept ones in order. |
| FastCgiQueue.ReachesAllIff | src/fastcgi.cpp:117-135 | A call defers exactly when some BEGIN_REQUEST, counting one arena for each new id in order of appearance, finds none left. |
| FastCgiQueue.VisitAchieves | src/fcgi-connection.cpp:145-159 | A visited connection goes on if and only if the arenas left are enough for its unread records; otherwise it takes all of them, keeps its input, and what it took counts in full towards the next visit. Arenas only move from the pool to requests. |
| FastCgiQueue.PassRefines | src/fcgi-connection.cpp:78-106 | A pass that runs the record engine on every visited connection, all drawing on one pool, is a pass of the queue model, so its laws hold of it. |
| FastCgiQueue.FrontIsServedIff | src/fcgi-connection.cpp:86-104 | The connection at the front is served if and only if the arenas left are enough for it, and is put back with none left otherwise. |
| FastCgiQueue.FirstTakesAll | src/fcgi-connection.cpp:78-106 | Arenas that are not enough for the first of two waiting connections all go to it; the second is as it was, in its old place. |
| FastCgiQueue.PassedOver | src/fcgi-connection.cpp:78-106 | While the first needs more than m arenas, m passes with a free arena each leave the second exactly as it was. |
| FastCgiQueue.BeginsNeed | src/fastcgi.cpp:117-135 | The opening records of n new requests need exactly n arenas. |
| UrlQuery.DecodeOfEncode | src/http.cpp:64-131 | Decoding inverts encoding on every byte string. |
| UrlQuery.EncodedIsPlain | src/http.cpp:113-131 | Encoded text holds no '&', '=' or '+'. |
| UrlQuery.EncodedBytes | src/http.cpp:92-131 | Letters, digits and - _ . ~ are encoded as themselves, every other byte as a percent sign and two upper-case hex digits. |
| UrlQuery.DecodedBytes | src/http.cpp:64-90 | A plus sign is decoded as a blank and other bytes as themselves. |
| UrlQuery.DecodedEscapes | src/http.cpp:64-90 | Escapes are decoded in either case; a percent sign without two hex digits stands for itself. |
| UrlQuery.QueryText | src/http.cpp:133-149 | Keys and values are joined by = and pairs by &. |
| UrlQuery.SplitThenJoin | src/http.cpp:151-181 | The reference split cuts at every separator and nowhere else. |
| UrlQuery.Encode | src/http.cpp:113-131 | The loop produces the byte-wise encoding. |
| UrlQuery.Decode | src/http.cpp:64-90 | The index loop decodes escapes, plus signs and malformed escapes as specified. |
| UrlQuery.ParseQueryString | src/http.cpp:151-181 | The index-based loop equals splitting on '&' and then on the first '=', later keys winning and empty keys ignored. |
| UrlQuery.Build | src/http.cpp:133-149 | The loop writes the pairs in iteration order, joined by '&'. |
| UrlQuery.QueryRoundTrip | src/http.cpp:133-181 | Parsing the query built from any list of pairs gives their last-wins map without the empty key. |
| UrlQuery.MapRoundTrip | src/http.cpp:133-181 | For every map and every iteration order, parsing the built query returns the map without its empty key. |
| MultipartRoundTrip.FindBehindContent | src/http.cpp:206-210 | The delimiter search stops right behind a content that does not hold CRLF and the delimiter. |
| MultipartRoundTrip.HeaderIsRead | src/http.cpp:202-271 | The header of an encoded field or file is found whole and yields its names, and the content type of a file. |
| MultipartRoundTrip.AnyCase | src/http.cpp:230-231 | Header names are compared in lower case. |
| MultipartRoundTrip.TrimmedText | src/http.cpp:37-43 | Blanks and tabs around a text go, and only those. |
| MultipartRoundTrip.HeaderWords | src/http.cpp:232-271 | The words and characters of the headers in ASCII. |
| MultipartRoundTrip.FormRoundTrip | src/http.cpp:183-321 | For every list of fields and files and every epilogue, extraction succeeds and yields the last-wins map of the fields and the files in order with their names and types, each content without one trailing CRLF. |
| MultipartRoundTrip.ContentSurvives | src/http.cpp:207-212 | A content comes back unchanged if and only if it does not end in CRLF. |
| MultipartRoundTrip.UnterminatedFails | src/http.cpp:202-209 | A body that breaks off inside a content is refused, the fields and files before it being kept. |
| MultipartRoundTrip.MalformedForm | src/http.cpp:185-201 | A delimiter that ends neither its line nor the form is an error, and so is an empty boundary. |
| MultipartRoundTrip.FormTexts | src/http.cpp:188-207 | The line ends and dashes of the encoding in bytes. |
| Multipart.TrimSpaces | src/http.cpp:37-43 | Removes the blanks and tabs at both ends. |
| Multipart.ReadDisposition | src/http.cpp:234-265 | The attribute loop equals splitting on ';' and reading each attribute. |
| Multipart.ReadHeaders | src/http.cpp:213-271 | The header loop reads the lines up to the first empty one. |
| Multipart.ReadPart | src/http.cpp:202-271 | Headers, content and the position of the next delimiter of one part, or failure when its end is missing. |
| Multipart.ExtractForm | src/http.cpp:183-321 | The loop over the parts terminates with the status, fields and uploads of the specification, for every body and boundary. |

## Left out

- Sockets, epoll, accept pausing, timers, signals, logging and configuration: plumbing; what they decide is an input.
- Closing of connections and reuse of a kept connection. A release is one step of its own: that releasing a request re-enters the waiting queue while its callers iterate the same tables, and that a pending response may outlive its request, is not modelled.
- Plain-HTTP accumulation on the WebSocket port and bytes behind an upgrade request: the frame model starts after the handshake.
- `WorkerPool`: its queue is changed without the mutex its workers hold, so an atomic-step model would not describe it.
- The environment entries that describe the arena, and path-prefix stripping before a request is handed over: the initial environment is a parameter.
- Start time of a request: the ids that are overdue are an input of the timeout step, in iteration order.
- Name-value pairs that straddle two PARAMS records: the parser keeps no partial pair; `FastCgiEngine.Request.TakeParams` covers what it does with any content, `FastCgiAdmission.Admission` assumes whole pairs per record.
- JsonCodec.JsonCursor.ReadNumber: numerals are exact decimals, because rounding is not the point here; where `std::stod` reports a value out of the range of a double the source fails and the model does not.
- JsonCodec.ParseText: the same for texts that hold such a numeral.
- Floating-point text: stored numbers are integers, parsed numbers are exact decimals; rounding to a double and overflow in `std::stod` are not modelled.
- 64-bit overflow of header, mask and payload lengths in the frame parser, which needs a payload length near 2^64; sizes are unbounded there.
- Hang-up and end of file on a WebSocket connection: they close the client after the same read and only end its reads earlier.
- The arena a scheduled WebSocket message needs: every message is scheduled.
- Upload files: parts with a file name are collected with their names, type and content instead of written; temporary names and hashes are not modelled.
- What happens after a clearing that leaves the arena. An allocation of no bytes at address 0, which a caller would take for a failure, counts as a block.
- Cache coherence is proved for calls that do not overlap; `FileCache.Interleave` covers accounting for overlapping ones. Its assumptions: one clock that moves between steps, a new mtime for every write, external writes between calls, and file operations that succeed.
- Session ids, cookies, session start and clearing, the WebSocket handshake with SHA-1 and base64, cookie parsing and display code: foreign calls or easy members.
- Constructors, moves and lifetime of `DynamicVariable`: an algebraic datatype has none.
