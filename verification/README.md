# SocketLens TCP, verified

SocketLens speaks its own protocol, SLTP/1.0, over TCP: a start line, header lines, an empty
line and a body whose length the header declares. TCP keeps no message boundaries, so
everything rests on an incremental decoder that must give the same messages however the bytes
were cut into chunks, and on an encoder whose output it must undo. Around the two stand a
control server, a client, mock endpoints with rules, a scenario runner with verdicts, and two
numeric kernels.

This project models that code in Dafny and proves what it is for: laws over every byte stream
and every partition, invariants over every run and every interleaving, and exact conditions
where a promise holds only sometimes.

`dafny verify dfyconfig.toml` checks everything.

## Layout

| files | what they model |
|---|---|
| Octets, Numbers, Reasons | byte strings and searching, small arithmetic, error reasons |
| Headers, HeaderParser, HeaderGrammar | canonical names, header-block parsing, and exactly what it accepts and refuses |
| Framing | the framing rule for any header parser, and the laws of chunking, conservation and prefixes |
| Decoder | the decoder class with its buffer, resumable cursor and stop flag, refining Framing |
| Encoder, RoundTrip, Reencode, EncodedFields | the encoder, its octets, and that decoder and encoder undo each other |
| RequestIds | how a Request-ID gets into a message and out again |
| ControlConnection, RateLimit | one connection of the control server, its token bucket |
| Client | correlation of responses to requests |
| MockEndpoint, MockResponse, ResponseChain | segmentation, the response to one request, the serialised response chain |
| TestRunner | one scenario exchange and the verdict on it |
| SessionStore, Matching, Json, Sorting | rules of a session and how one is chosen |
| EditDistance, SignTest | flag suggestions of the command line, significance in the benchmarks |

A class stands for an object the source updates in place. Its ghost `View()` or `history` is a
value, its methods are proved to move that value exactly as a step function says, and the
lemmas over all runs are about that step function. Asynchronous functions are cut where they
await; the pieces run in any order the environment chooses.

## Where the code and its documents differ

The model follows the code. Six promises hold only under a condition, and each condition is
proved to be exact: the promise holds if and only if it does.

* Section 4 of docs/protocol-specification.md wants every delivery of the same bytes handled
  alike, and R-19.4 a message exactly at a limit accepted. While no delimiter is buffered,
  decoder.ts:202 compares the whole buffer, which may hold up to three delimiter octets, with
  the header-block limit; decoder.ts:219 compares only the block. A block 0 to 2 octets under
  the limit is therefore accepted or refused depending on the chunks. `ChunkingInvisibleIff`
  and `SurvivesChunkingIff` state for which inputs the promise holds; `PingUnderTightLimit` is a
  concrete message for which it does not.
* R-9.11 wants every request to carry exactly one Request-ID and R-9.12 every response to echo
  it. The client (client.ts:333-337) and a mock endpoint (mock-endpoint.ts:257-260) assign the id
  under the registered spelling only, so a caller's or rule's header such as `request-id` stays
  beside it and is written under the same name: `RequestBearsItsIdIff`, `OwnIdIff`. Every decoder
  refuses such a message: `TwoIdsRefused`.
* The grammar of section 6 of docs/protocol-specification.md (lines 205-213) knows only spaces and tabs around a
  value. `trim` at decoder.ts:399 takes vertical tabs and form feeds away as well: `StrictIff`.
* assertions.ts:124-134 compares an expected header value with the text `(absent)` when the
  response lacks the header. An expectation of exactly that text passes on a response without
  the header: `HeaderAssertionExactIff`.
* docs/architecture.md:575 counts the number of responses among what a verdict rests on. A
  scenario of two coalesced requests waits for two responses, but may pass on the first alone:
  `ScenarioPassIff` and, for any decoder, `PassSawAllIff`. `ShortUnnoticedIff` says which step
  of a run lets that happen: the timer, a socket error or a fatal failure, never the close.
* Section 9.6 of docs/protocol-specification.md calls Retry-After the time to wait before retrying. A
  bucket configured to hold less than one token announces a wait after which it still refuses:
  `AnnouncedHonestIff`.

Re-encoding a decoded message gives back its octets only when the message is normal and its
body is text that UTF-8 decoding leaves unchanged; `ReencodingIff` is exact about both.

## Model

| member | source | states |
|---|---|---|
| Framing.ChunkingInvisibleIff | packages/protocol/src/decoder.ts:189-295 | For any deterministic parser: a byte stream shows the same messages, raw bytes, error reason and stopped state under every partition into chunks if and only if no header block it reaches is 0 to 2 octets under maxHeaderBlockBytes. Both directions. |
| Framing.ChunksDoNotMatter | packages/protocol/src/decoder.ts:147-159 | On such a stream, any sequence of pushes leaves what one push of the whole stream leaves. |
| Framing.DecodeSplit | packages/protocol/src/decoder.ts:155-158 | Decoding a prefix and pushing the rest onto the leftover shows what decoding everything at once shows. |
| Framing.BadCutDiffers | packages/protocol/src/decoder.ts:199-228 | For every stream with a header block in that window a cut exists whose first part is already refused, with a view the whole stream does not have. |
| Framing.WindowRefusesPrefix | packages/protocol/src/decoder.ts:199-211 | The cut is the one before the last LF of the delimiter: two pushes report an oversized header block although the block itself is within the limit. |
| Framing.OctetsConserved | packages/protocol/src/decoder.ts:147-184 | Over all pushes: the raws of the messages, then the buffer or the failure's raw, are exactly the octets accepted, in order; the octets accepted are a prefix of those pushed, and all of them while nothing failed. |
| Framing.DecodeConserves | packages/protocol/src/decoder.ts:273-291 | One run of the framing loop neither loses, adds nor reorders an octet. |
| Framing.WaitingIsBounded | packages/protocol/src/decoder.ts:199-213 | Whatever is pushed, a decoder still waiting holds at most maxHeaderBlockBytes octets or fewer than maxMessageBytes, and its buffer holds no settled turn. |
| Framing.ProperPrefixWaits | packages/protocol/src/decoder.ts:265-271 | A proper prefix of one message is neither a message nor a failure. |
| Framing.PrefixFree | packages/protocol/src/decoder.ts:189-295 | No message is a proper prefix of another. |
| Framing.DecodeFrames | packages/protocol/src/decoder.ts:284-291 | Whole messages followed by part of one come out in order, and exactly the part stays buffered. |
| Framing.CutStreamInChunks | packages/protocol/src/decoder.ts:167-184 | A stream of messages cut after any octet k and delivered in any chunks yields precisely the messages wholly before k, and end() reports a truncated message if and only if k is not a message boundary. |
| Decoder.SltpChunkingInvisibleIff | packages/protocol/src/decoder.ts:147-159 | The chunking law with the protocol's own header parser in place. |
| Decoder.SltpParserIsLocal | packages/protocol/src/decoder.ts:315-435 | The header parser never itself reports an oversized block, which the law needs. |
| Decoder.OnlyExpectedKind | packages/protocol/src/decoder.ts:474-489 | A decoder set up for requests yields only requests, one for responses only responses. |
| Decoder.EventsExact | packages/protocol/src/decoder.ts:190-294 | The events of a push are one for each message in order, then one for a failure. |
| Decoder.SltpDecoder.Push | packages/protocol/src/decoder.ts:147-159 | Emits the events of the leftover buffer followed by the chunk, nothing once stopped; the history advances as the whole-stream function says; cursor soundness, octet conservation and the search budget are kept; the buffer is bounded afterwards. |
| Decoder.SltpDecoder.Drain | packages/protocol/src/decoder.ts:189-295 | The resumable loop emits exactly the events of a search from the start of the buffer, terminates, and spends at most four search positions beyond its potential. |
| Decoder.SltpDecoder.TakeTurn | packages/protocol/src/decoder.ts:192-292 | One turn: waits with the buffer untouched, poisons and empties on a refusal, or cuts exactly the message's octets off the front. |
| Decoder.SltpDecoder.Locate | packages/protocol/src/decoder.ts:196-197 | The resumed search finds the same delimiter as a search from 0. |
| Decoder.SltpDecoder.Inspect | packages/protocol/src/decoder.ts:199-271 | The limit, parse, length and completeness checks together decide as the framing rule; every refusal is fatal. |
| Decoder.SltpDecoder.Fail | packages/protocol/src/decoder.ts:298-311 | Poisons, empties and resets the cursor exactly for a fatal reason, and reports the buffer as it was. |
| Decoder.SltpDecoder.End | packages/protocol/src/decoder.ts:167-184 | Reports a truncated message with the leftover octets if and only if octets are buffered and the stream is not stopped. |
| Decoder.SltpDecoder.Reset | packages/protocol/src/decoder.ts:130-134 | Starts a new history; the lifetime search budget still holds. |
| Decoder.SltpDecoder.constructor | packages/protocol/src/decoder.ts:109-112 | A fresh decoder has decoded and accepted nothing. |
| Decoder.CursorExtended | packages/protocol/src/decoder.ts:95-101 | Appending a chunk cannot create a delimiter before the stepped-back cursor. |
| Decoder.PushHistory | packages/protocol/src/decoder.ts:155-158 | Conservation across one push. |
| HeaderParser.ParseHeaderBlock | packages/protocol/src/decoder.ts:315-435 | Reports the first fault in the source's order of checks, or the start line and the trimmed fields in wire order. |
| HeaderParser.CheckLineEndings | packages/protocol/src/decoder.ts:339-358 | The first line with a bare LF or CR decides, LF before CR within a line. |
| HeaderParser.CollectFields | packages/protocol/src/decoder.ts:374-432 | Stops at the first faulty line; only the four single-valued names may not repeat. |
| HeaderParser.ResolveContentLength | packages/protocol/src/decoder.ts:581-641 | The first Content-Length decides: none is 0; negative, non-decimal and oversized are told apart. |
| HeaderParser.ParserReasons | packages/protocol/src/decoder.ts:315-577 | Every parse fault is fatal and is neither an oversized block nor a truncation. |
| HeaderGrammar.BlockIff | packages/protocol/src/decoder.ts:315-435 | A header block is accepted with a head if and only if it is lines joined by CRLF: the text of a valid start of the expected kind, then one line for each field that bears it, within the limits and with no single-valued name twice. |
| HeaderGrammar.StartLineIff | packages/protocol/src/decoder.ts:437-577 | A start line is accepted as a start if and only if it is exactly its text, the start is valid and of the expected kind. |
| HeaderGrammar.FieldIff | packages/protocol/src/decoder.ts:377-432 | A header line is accepted as a field if and only if it is a valid name, a colon and the value among spaces, and repeats no single-valued name. |
| HeaderGrammar.ParseAnyField | packages/protocol/src/decoder.ts:398-429 | For every valid name and everything after the colon: the trimmed rest is the value, or its fault, also without a space after the colon. |
| HeaderGrammar.BlockSpacesIrrelevant | docs/protocol-specification.md:205-213 | A header block parses to the same result whatever spaces and tabs stand between its colons and values. |
| HeaderGrammar.LengthIff | packages/protocol/src/decoder.ts:581-641 | The declared body length is the numeral of the first Content-Length, within both bounds, or 0 without one. |
| HeaderGrammar.LengthFaults | packages/protocol/src/decoder.ts:597-638 | Negative, not a numeral and too large are told apart exactly. |
| HeaderGrammar.LeadingZero | packages/protocol/src/decoder.ts:612-616 | Leading zeros do not change a length. |
| HeaderGrammar.BareFault | packages/protocol/src/decoder.ts:339-358 | The first line with a bare ending decides, and within it LF comes before CR. |
| HeaderGrammar.FieldFaults | packages/protocol/src/decoder.ts:378-395 | Folding is reported exactly for a line that starts with a space or tab, a malformed line exactly for one without a name before a colon. |
| HeaderGrammar.NameFault | packages/protocol/src/decoder.ts:397-409 | A name is reported invalid exactly when it is. |
| HeaderGrammar.StartFaults | packages/protocol/src/decoder.ts:437-489 | A wrong version is reported before anything behind it, and a start of the other kind as that. |
| HeaderGrammar.StatusFaults | packages/protocol/src/decoder.ts:513-577 | A faulty status line: the code is named first, then a missing phrase, then a bad one, each exactly when it is the fault. |
| HeaderGrammar.OperationFaults | packages/protocol/src/decoder.ts:461-509 | A faulty request line: nothing behind the version or something behind the operation is malformed, an invalid operation is named exactly when it is. |
| HeaderGrammar.BlockFaults | packages/protocol/src/decoder.ts:318-372 | An empty start line, one too long and too many fields are reported exactly when they are the fault. |
| HeaderGrammar.StrictIff | docs/protocol-specification.md:205-213 | An accepted header line is one of the documented grammar if and only if it holds no vertical tab and no form feed. |
| HeaderGrammar.OperationLength | packages/protocol/src/encoder.ts:39-43 | An operation has 1 to 32 characters and starts with a capital. |
| Headers.CanonicalKeepsField | packages/protocol/src/headers.ts:75-84 | Canonical spelling changes neither the field a name denotes nor its validity. |
| Headers.CanonicalIdempotent | packages/protocol/src/headers.ts:75-84 | Canonicalising twice is canonicalising once. |
| Headers.CanonicalForgetsCase | packages/protocol/src/headers.ts:75-84 | Two names have the same spelling if and only if they denote the same field. |
| Headers.ExtensionSpelling | packages/protocol/src/headers.ts:75-84 | An unregistered name is capitalised segment by segment. |
| Headers.TrimExact | packages/protocol/src/decoder.ts:398-399 | Trimming takes away all spaces on either side and nothing else. |
| Headers.CharacterCodes | packages/protocol/src/headers.ts:53-57 | The characters of names and values and those trimmed, by code. |
| Headers.TrimSound | packages/protocol/src/decoder.ts:398-399 | Trimming keeps valid values valid, leaves no outer space and is idempotent. |
| Headers.DecimalRoundTrip | packages/protocol/src/encoder.ts:168-171 | Reading a written decimal length gives the number back. |
| Encoder.EncodeMessage | packages/protocol/src/encoder.ts:121-178 | Produces the start line, the caller's fields in order without any Content-Length, a media type when there is a body and none was given, the true length and the body; or the first invalid name, value or start line. |
| EncodedFields.EncodableIff | packages/protocol/src/encoder.ts:140-153 | A header record can be encoded if and only if every entry with a value has a valid name and value. |
| EncodedFields.RecordsAppend | packages/protocol/src/encoder.ts:140-156 | Entries are written one after the other, in order. |
| EncodedFields.OneEntry | packages/protocol/src/encoder.ts:140-156 | One entry becomes its canonical field, or nothing without a value or as a length. |
| EncodedFields.ReadBack | packages/protocol/src/encoder.ts:121-178 | A decoder whose limits the message fits reads its start, its body and each of its header entries. |
| EncodedFields.NothingElseRead | packages/protocol/src/encoder.ts:139-171 | What a decoder reads under a name comes from an entry of that name, but for media type and length. |
| EncodedFields.MediaType | packages/protocol/src/encoder.ts:158-166 | A body without a media type of the caller's is declared JSON or plain text as asked; no body declares none. |
| EncodedFields.WireFormat | packages/protocol/src/encoder.ts:137-177 | The octets of a message, written out: start line, each field as name, colon, space and value on a line of its own, an empty line, the body. |
| EncodedFields.FirstFault | packages/protocol/src/encoder.ts:140-153 | The first invalid header entry decides the error, its name before its value. |
| EncodedFields.StartFault | packages/protocol/src/encoder.ts:39-62 | An invalid start is reported before any header: the operation, the status code, then the phrase. |
| EncodedFields.AgainIsText | packages/protocol/src/encoder.ts:95-109 | A message encoded again without a media type is declared plain text. |
| RoundTrip.PipelinedRoundTrip | packages/protocol/src/encoder.ts:121-178 | Any list of encodable messages within the limits (header blocks at least three octets under theirs), encoded, concatenated and pushed in any chunks, comes back message by message with canonical names, trimmed values and the same body; nothing stays buffered and end() reports nothing. |
| RoundTrip.TruncationDetected | packages/protocol/src/decoder.ts:167-184 | The same pipeline cut after any octet yields precisely the messages wholly before the cut; end() reports truncation if and only if the cut is inside a message. |
| RoundTrip.RoundTripIff | packages/protocol/src/decoder.ts:189-295 | One encoding in one push comes back as its message if and only if it meets the decoder's four limits, its kind and its single-valued rule. |
| RoundTrip.OversizedRefusedEarly | packages/protocol/src/decoder.ts:254-271 | A message too large is refused as soon as its header block is there, before any of its body, for its declared length or for the whole. |
| RoundTrip.SurvivesChunkingIff | docs/protocol-specification.md:120-149 | A message within the limits survives every chunking if and only if its header block is at least three octets under the limit. |
| RoundTrip.WindowRefuses | packages/protocol/src/decoder.ts:199-211 | With 0 to 2 octets to spare, the chunk ending before the delimiter's last LF makes the decoder refuse the message. |
| RoundTrip.PingUnderTightLimit | docs/protocol-specification.md:1048-1049 | A concrete message exactly at a limit that is not accepted under every delivery. |
| RoundTrip.EncodingsPrefixFree | packages/protocol/src/encoder.ts:168-177 | No encoding within the limits is a proper prefix of another. |
| RoundTrip.LookWritten | packages/protocol/src/decoder.ts:189-295 | The framing loop settles on a whole encoding at once, and takes it if and only if it fits. |
| RoundTrip.ParseWrittenBlock | packages/protocol/src/decoder.ts:315-435 | What parsing a written header block gives, in every case: the message, or which limit or rule it breaks. |
| RoundTrip.ParseWrittenStart | packages/protocol/src/decoder.ts:437-577 | A written start line parses back to itself unless the decoder expects the other kind. |
| RoundTrip.ParseWrittenFields | packages/protocol/src/decoder.ts:377-432 | Written field lines parse back to the fields, trimmed, unless a single-valued name repeats. |
| RoundTrip.WrittenLength | packages/protocol/src/decoder.ts:581-641 | The length a decoder resolves from an encoding is the true body length, or too large. |
| RoundTrip.FirstDelimiter | packages/protocol/src/encoder.ts:173-177 | The first CRLFCRLF of an encoding is the one that ends its header block, whatever the body holds. |
| RoundTrip.SplitJoin | packages/protocol/src/decoder.ts:317 | Splitting at CRLF undoes joining valid lines. |
| Reencode.ReencodingIff | packages/protocol/src/encoder.ts:93-119 | Decoding an encoding and encoding it again gives the same octets if and only if no field name was written twice, no value had outer spaces, a body came with a media type, and the body octets survive being decoded as UTF-8 and encoded again. |
| Reencode.ReencodingNeverFails | packages/protocol/src/encoder.ts:95-119 | Re-encoding anything the decoder accepted succeeds. |
| Reencode.ReencodingStabilises | packages/protocol/src/encoder.ts:93-119 | Once the body is text that survives that, re-encoding a second time changes nothing more. |
| Reencode.ParsedIsEncodable | packages/protocol/src/decoder.ts:315-435 | What the parser accepts obeys the grammars the encoder checks, trimmed and with single-valued names once. |
| Reencode.EncodeInjective | packages/protocol/src/encoder.ts:121-178 | Two encodings are equal if and only if start line, all written fields and body are equal. |
| Reencode.HeadersToRecord | packages/protocol/src/encoder.ts:113-119 | The loop that fills the record keeps a name's first place and last value. |
| Reencode.RecordSound | packages/protocol/src/encoder.ts:113-119 | The record has each name once, only values that were sent, and no name lost. |
| Reencode.LastValueWins | packages/protocol/src/encoder.ts:113-119 | The record holds the last value given for a name. |
| ControlConnection.EveryRun | apps/server/src/server.ts:310-419 | Under every interleaving: each decoded request has at most one response, exactly one once its handler is done and the connection still carries responses, always with its own Request-ID; the socket is ended at most once, only after a fatal decode failure with every request finished; and marked for closing with none in flight implies it was ended. |
| ControlConnection.NothingAfterEnd | apps/server/src/server.ts:505-511 | No step writes or ends anything after the socket was ended, so no response is cut off by the close. |
| ControlConnection.StepKeeps | apps/server/src/server.ts:357-419 | Every step keeps the invariant: the in-flight count is the number of unfinished requests, and no close is lost. |
| ControlConnection.RunKeeps | apps/server/src/server.ts:310-419 | So does every run from any state satisfying it. |
| ControlConnection.EveryRequestIsTriaged | apps/server/src/server.ts:357-419 | In every run a request is with its handler, or was, if and only if it had a token and was valid; with rate limiting off all have one; and a fatal failure has exactly one response of its own. |
| ControlConnection.ReceiveTriages | apps/server/src/server.ts:333-405 | Of the requests one chunk completes, exactly those with a token that are valid are with their handler after the step; the others are answered already. |
| ControlConnection.CanAlwaysEnd | apps/server/src/server.ts:404-418 | No run gets stuck: from every reachable state the requests can all be finished, and after a fatal failure on a socket not destroyed the connection is then ended. |
| ControlConnection.FirstBurstAdmitted | apps/server/src/server.ts:438-454 | A connection admits its first requests up to the capacity, however close they come. |
| ControlConnection.EveryRunIsMetered | apps/server/src/server.ts:372-456 | In every run with a clock that does not go back, of any requests received one after the other a connection admits at most the capacity plus the refill between the first and the last of them, and no request without a token reaches a handler. |
| ControlConnection.RunMetered | apps/server/src/server.ts:438-456 | The bucket is always what the arrivals made of a full one, and each request was admitted by the bucket it met. |
| ControlConnection.WindowCounted | apps/server/src/server.ts:438-456 | The admissions counted in any window of requests are those of the bucket run over that window. |
| ControlConnection.Connection.ConsumeToken | apps/server/src/server.ts:438-456 | Draws a token as the bucket rule says, or admits everything when rate limiting is off. |
| ControlConnection.Connection.constructor | apps/server/src/server.ts:244-252 | A new connection has decoded, written and ended nothing. |
| ControlConnection.Connection.Receive | apps/server/src/server.ts:310-354 | A chunk acts on each of its events in order, as one step of the state machine; nothing when the socket is destroyed. |
| ControlConnection.Connection.BeginJob | apps/server/src/server.ts:357-402 | Counts the request in, draws its token and, without one or when it is invalid, writes its response before returning. |
| ControlConnection.Connection.WriteResponse | apps/server/src/server.ts:461-498 | One response with the request's own id; none on a destroyed socket or after the peer ended the connection. |
| ControlConnection.Connection.HandlerDone | apps/server/src/server.ts:404-412 | A handler that returned or threw leads to exactly one response. |
| ControlConnection.Connection.WriteDone | apps/server/src/server.ts:498-511 | A write callback only lets that request proceed. |
| ControlConnection.Connection.Finally | apps/server/src/server.ts:413-418 | The last handler out ends a connection marked for closing. |
| ControlConnection.Connection.FaultWriteDone | apps/server/src/server.ts:505-510 | After the answer to a fatal failure: marked for closing, ended now if nothing is in flight. |
| RateLimit.WindowBound | apps/server/src/server.ts:438-456 | In any window of any run with a clock that does not go back, admissions are at most the capacity plus the refill over the window. |
| RateLimit.BurstIsAdmitted | apps/server/src/server.ts:443-454 | A bucket admits as many calls as it holds tokens, however close they come. |
| RateLimit.PaceIsAdmitted | apps/server/src/server.ts:443-454 | Calls far enough apart for a token to flow in between are all admitted. |
| RateLimit.RetryAfterExact | apps/server/src/server.ts:451-455 | After a refusal every call before the announced time is refused and the first at or after it is admitted, however many refused calls come between. |
| RateLimit.AnnouncedHonestIff | apps/server/src/server.ts:451-455 | A finite announced wait is kept if and only if the bucket holds at least one token; an infinite one always is. |
| RateLimit.RetryIsThreshold | apps/server/src/server.ts:455 | The announced wait is the least number of milliseconds that refills the bucket to one token. |
| RateLimit.AdmissionsPaidFor | apps/server/src/server.ts:443-454 | Admissions plus what is left never exceed what was there plus what flowed in. |
| RateLimit.RunInRange | apps/server/src/server.ts:443-454 | The bucket stays between empty and its capacity. |
| RateLimit.TokenBucket.ConsumeToken | apps/server/src/server.ts:438-456 | For any capacity and rate: refills, caps, then takes one token or announces the wait, an infinite one at a rate of zero. |
| RateLimit.TokenBucket.constructor | apps/server/src/server.ts:247-249 | A bucket starts full. |
| Client.EveryRun | packages/core/src/client.ts:215-434 | In every run: issued ids split disjointly into pending and settled, armed timers are exactly the pending ids, a response settled only the request whose id it bears and is handed out with that request, and after a fatal failure or a close nothing is pending. |
| Client.RunKeeps | packages/core/src/client.ts:254-434 | An id that has settled never settles again or differently, in any continuation of any run. |
| Client.EveryStepSettles | packages/core/src/client.ts:215-434 | In every run each step ends exactly the pending requests it must: a response bearing the id ends it with that response, the first if there are several, also when a fatal failure ends the chunk; the failure ends the others; the timer its own; the close event all; and its timer is cleared. |
| Client.SendRegisters | packages/core/src/client.ts:332-385 | Sending registers just the encoded request, under an id never used before and with its timer; or nothing if it cannot be encoded. |
| Client.TimerCanFire | packages/core/src/client.ts:365-375 | The timer of every pending request can fire and then ends it, so no caller waits forever. |
| Client.StepKeeps | packages/core/src/client.ts:254-434 | The same for each single step. |
| Client.LateResponseIgnored | packages/core/src/client.ts:292-307 | A response with no id, an unknown one or one already settled changes nothing. |
| Client.CloseSettlesAll | packages/core/src/client.ts:222-244 | After the close event no caller waits and no timer is armed. |
| Client.RequestBearsItsIdIff | docs/protocol-specification.md:377-378 | In any run every registered request is the encoding of its call under its id, and carries exactly that one Request-ID if and only if the caller's headers do not spell the name in other letters. |
| Client.PeerReadsTheId | packages/core/src/client.ts:332-353 | A peer whose limits the request fits decodes just that request and reads the id it is pending under. |
| Client.CallIsRead | packages/core/src/client.ts:332-353 | A peer whose limits the request fits reads the operation, the body, the session id and each other header of the call. |
| Client.CallMediaType | packages/core/src/client.ts:341-353 | Without a media type of the caller's a body is sent as JSON or plain text, as asked. |
| Client.SltpClient.constructor | packages/core/src/client.ts:184-209 | A connected client has nothing pending. |
| Client.SltpClient.Send | packages/core/src/client.ts:327-385 | Without a connection it fails and changes nothing; a request that cannot be encoded uses up an id only; any other is encoded under a fresh id and registered with its timer. |
| Client.SltpClient.TimerFires | packages/core/src/client.ts:365-373 | Settles that request as timed out and no other. |
| Client.SltpClient.Receive | packages/core/src/client.ts:254-319 | A chunk correlates each response in order; a fatal failure then rejects all that is pending and destroys the socket. |
| Client.SltpClient.Correlate | packages/core/src/client.ts:292-317 | One response settles the pending request with its id, or nothing. |
| Client.SltpClient.FailAll | packages/core/src/client.ts:427-434 | Every pending request is rejected with the one error, once, and its timer cleared. |
| Client.SltpClient.CloseEvent | packages/core/src/client.ts:222-250 | Ends the decoder and rejects all that is pending. |
| Client.RequestIdsDiffer | packages/core/src/ids.ts:17-21 | Different counter values give different ids. |
| MockEndpoint.FragmentationInvisible | packages/core/src/test-runner.ts:239-248 | However a scenario splits encodable requests into writes and however TCP delivers them, the endpoint decodes the same requests as from one write (header blocks at least three octets under the limit). |
| MockEndpoint.EqualPartsExact | packages/core/src/mock-endpoint.ts:398-403 | A non-empty buffer of n octets splits into exactly ceil(n / ceil(n / p)) non-empty pieces with p = min(count, n): at most p, at least two when two are asked for and n is at least two; they concatenate to the buffer. |
| MockEndpoint.EqualSegments | packages/core/src/mock-endpoint.ts:398-403 | All pieces have the same size but the last, which is not empty or larger. |
| MockEndpoint.SegmentsConcat | packages/core/src/mock-endpoint.ts:384-395 | Segmentation by any sizes loses, adds and reorders nothing. |
| MockEndpoint.SegmentSizes | packages/core/src/mock-endpoint.ts:384-395 | Segmentation follows the sizes given; what is left over is one last piece. |
| MockEndpoint.HowPlanned | packages/core/src/test-runner.ts:239-248 | A fragmented payload is written in the sizes given, or else in the number of equal parts; otherwise in one write. |
| MockEndpoint.SplitConcat | packages/core/src/mock-endpoint.ts:384-395 | Nor on an empty buffer. |
| MockEndpoint.PlanConcat | packages/core/src/test-runner.ts:239-248 | Every write plan carries exactly the payload. |
| MockEndpoint.SplitBuffer | packages/core/src/mock-endpoint.ts:384-395 | The loop over sizes cuts as specified, remainder last, an empty buffer whole. |
| MockEndpoint.SplitIntoParts | packages/core/src/mock-endpoint.ts:398-403 | Equal parts are segments of the rounded-up size. |
| MockResponse.OwnIdIff | docs/protocol-specification.md:379-381 | A response built from a rule carries exactly the Request-ID of its request if and only if no header of the rule spells Request-ID in other letters. |
| MockResponse.DoubledIdRefused | packages/core/src/mock-endpoint.ts:254-265 | With such a header, the response to any request with an id is refused by every decoder, whatever its limits. |
| RequestIds.TwoIdsRefused | packages/protocol/src/decoder.ts:420-429 | A message written with two Request-ID fields is refused by every decoder. |
| RequestIds.IdsOfMessage | packages/protocol/src/encoder.ts:139-156 | An encodable message is written with exactly the Request-ID values of its record, whatever their spelling. |
| RequestIds.AssignOwn | packages/core/src/mock-endpoint.ts:257-260 | Assigning the id to a record leaves just it, and more than it if and only if another entry spells the name otherwise. |
| MockResponse.ReplyBearsOwnId | packages/core/src/mock-endpoint.ts:197-276 | Whatever answers a request, rule or error, carries exactly the Request-ID of that request when the rules leave that header alone. |
| MockResponse.ErrorBearsId | packages/core/src/mock-endpoint.ts:318-346 | An error response always carries the Request-ID it was given, once. |
| MockResponse.BestRuleAnswers | packages/core/src/mock-endpoint.ts:230-276 | With distinct sequences the answering rule is the best of those that fire; an error instead is 410 if and only if none fires. |
| MockResponse.HowAnswered | packages/core/src/mock-endpoint.ts:213-276 | A request is answered by the refusal, by 410 if no enabled rule matches, else by the best rule, or by 500 if what that rule says cannot be encoded. |
| MockResponse.RuleReplyIsRead | packages/core/src/mock-endpoint.ts:252-265 | A peer whose limits the response fits reads the rule's status, phrase and body, its rule id, and each header of the rule that the endpoint does not overwrite. |
| MockResponse.ErrorReplyIsRead | packages/core/src/mock-endpoint.ts:333-346 | A peer reads the status and body of an error, its reason, and a Connection field if and only if it is closing. |
| MockResponse.FaultIsRead | packages/core/src/mock-endpoint.ts:134-146 | The answer to a fatal failure says what failed and that the connection is closing. |
| MockResponse.MediaTypes | packages/core/src/mock-endpoint.ts:253-265 | A rule's body goes out as plain text unless the rule names a media type, an error as JSON. |
| MockResponse.HowWritten | packages/core/src/mock-endpoint.ts:278-302 | A rule's response goes out cut short, in its fragment sizes or in one write, as the rule says. |
| MockResponse.NeverSilent | packages/core/src/mock-endpoint.ts:252-276 | A decoded request is never left without an encodable response: when the rule's cannot be encoded an error can. |
| MockResponse.FedValid | packages/protocol/src/decoder.ts:397-432 | Every message decoded from any chunks has valid header fields. |
| MockResponse.Respond | packages/core/src/mock-endpoint.ts:198-293 | Validation refusal, no rule, unencodable rule response, cut-off or fragmented response: the same cases in the same order. |
| MockResponse.WriteError | packages/core/src/mock-endpoint.ts:318-355 | Writes the encoded error in one piece, or nothing. |
| MockResponse.ChunksAreTheResponse | packages/core/src/mock-endpoint.ts:280-302 | A response's writes are the whole response, or a prefix of it when its rule cuts it short. |
| ResponseChain.EveryRun | packages/core/src/mock-endpoint.ts:109-195 | Under any timing: the history is what the received chunks decode to; tasks begin in the order their requests were decoded; each response is the one its request and the rules of that moment call for; the octets sent are a prefix of the concatenated whole responses, all of it when the chain is idle on a connection that still carries them; the socket is ended only after every task, after a fatal failure. |
| ResponseChain.EveryAnswerBearsItsId | packages/core/src/mock-endpoint.ts:197-355 | In any run the k-th task answers the k-th decoded request with an encoding that carries exactly that request's Request-ID, as long as no rule's headers spell the name otherwise. |
| ResponseChain.EveryFaultIsAnswered | packages/core/src/mock-endpoint.ts:134-146 | In any run the answer to a fatal failure is the closing error response for it, and it can be encoded. |
| ResponseChain.FragmentedRun | packages/core/src/mock-endpoint.ts:109-195 | Fragmentation end to end: a run that received a scenario's writes in any chunks has one task for each request in order and, once idle on a living connection, sent their responses whole, in order and nothing else. |
| ResponseChain.NothingAfterEnd | packages/core/src/mock-endpoint.ts:148-152 | After a fatal failure's close nothing is begun or sent. |
| ResponseChain.FailureEndsTheSocket | packages/core/src/mock-endpoint.ts:134-152 | In every run a fatal failure is answered after all requests and then the socket is ended, once all tasks are done on a socket not destroyed. |
| ResponseChain.CutDestroys | packages/core/src/mock-endpoint.ts:280-291 | In every run a rule that cuts its response short has destroyed the socket once its task is done. |
| ResponseChain.NeverStuck | packages/core/src/mock-endpoint.ts:116-180 | Whatever the chain has to do next can be done, on a lost connection too. |
| ResponseChain.StepKeeps | packages/core/src/mock-endpoint.ts:198-315 | Every step keeps that; writes of different responses are never interleaved. |
| ResponseChain.RunKeeps | packages/core/src/mock-endpoint.ts:109-315 | So does every run. |
| ResponseChain.EndIsLast | packages/core/src/mock-endpoint.ts:148-152 | The end of the socket is the last task there will ever be. |
| ResponseChain.MockConnection.constructor | packages/core/src/mock-endpoint.ts:109-117 | A new connection has an empty chain. |
| ResponseChain.MockConnection.Receive | packages/core/src/mock-endpoint.ts:124-180 | A chunk appends one task for each request in order, and the answer and end for a failure. |
| ResponseChain.MockConnection.Begin | packages/core/src/mock-endpoint.ts:198-293 | The next task starts; its response is decided then, from its request and the current rules. |
| ResponseChain.MockConnection.WriteNext | packages/core/src/mock-endpoint.ts:295-302 | One awaited write, or giving up on a destroyed socket. |
| ResponseChain.MockConnection.FinishTask | packages/core/src/mock-endpoint.ts:280-291 | A rule that cuts its response short destroys the socket after its prefix. |
| TestRunner.EveryRun | packages/core/src/test-runner.ts:278-412 | In every run: the octets sent are a prefix of the payload within the cut, and all that is allowed once the write loop is over with nothing settled and the connection not lost; a result never says both timed out and disconnected, and its responses are exactly those decoded from the octets received. |
| TestRunner.SendsAllIff | packages/core/src/test-runner.ts:370-409 | Counting runs that lose the connection before its close event, the write loop sends all that is allowed in every run if and only if nothing is. |
| TestRunner.CanSendAll | packages/core/src/test-runner.ts:370-409 | From every reachable state of an unsettled, undisturbed exchange the write loop can come to its end with all that is allowed sent. |
| TestRunner.SettlesOnce | packages/core/src/test-runner.ts:295-368 | An exchange settles exactly once: a result is never changed by any later run, and without one the timer, a socket error and the close event can each happen and give it. |
| TestRunner.HowItSettles | packages/core/src/test-runner.ts:295-368 | In every run an unsettled exchange settles in exactly the steps that must settle it, timed out exactly when the timer fired with no response, disconnected exactly when the close came with responses missing, and with exactly that step's error. |
| TestRunner.HungUpIff | packages/core/src/test-runner.ts:381-407 | Once the write loop is over, unsettled and undisturbed, the client hung up if and only if its cut lay within the payload. |
| TestRunner.RunKeeps | packages/core/src/test-runner.ts:278-412 | Every run keeps the invariant behind these. |
| TestRunner.StepKeeps | packages/core/src/test-runner.ts:278-412 | Every step keeps it. |
| TestRunner.PassMeansResponse | packages/core/src/test-runner.ts:306-324 | A pass expecting neither a timeout nor a disconnect rests on a complete response decoded from the received octets that meets every declared expectation; each expected header is there with its value, or absent and expected as the placeholder text. |
| TestRunner.ArrivalPassIff | packages/core/src/assertions.ts:52-76 | Expecting a timeout passes if and only if the timer settled the exchange with no response, expecting a disconnect if and only if the close did with responses missing. |
| TestRunner.DescriptionPasses | packages/core/src/assertions.ts:112-178 | A response passes the expectation that describes it. |
| TestRunner.PassSawAllIff | packages/core/src/test-runner.ts:306-356 | For any decoder that takes some message: every pass of every run (expecting neither timeout nor disconnect) saw as many responses as the exchange wanted, if and only if it wanted at most one. |
| TestRunner.ScenarioPassIff | packages/core/src/test-runner.ts:103-118 | On the decoder the runner sets up: every pass saw every wanted response, if and only if the scenario does not coalesce two requests. |
| TestRunner.ShortUnnoticedIff | packages/core/src/test-runner.ts:299-368 | In any run, a result hides missing responses (some but too few, neither timed out nor disconnected) if and only if some but too few were decoded and anything but the close event settled it. |
| TestRunner.HeaderAssertionExactIff | packages/core/src/assertions.ts:124-134 | A header assertion passes exactly on responses carrying the field with the expected value, if and only if that value is not the text shown for an absent field. |
| TestRunner.EvaluateExchange | packages/core/src/assertions.ts:43-179 | A verdict is passed if and only if every recorded assertion passed, and if and only if every declared expectation holds of what was observed; the outcome names timeout, error or failure otherwise. |
| TestRunner.AssertContent | packages/core/src/assertions.ts:112-178 | All content assertions pass if and only if the response meets each declared aspect. |
| TestRunner.Exchange.constructor | packages/core/src/test-runner.ts:278-295 | An exchange starts with nothing sent or received. |
| TestRunner.Exchange.Finish | packages/core/src/test-runner.ts:299-325 | The first call settles; later calls change nothing. |
| TestRunner.Exchange.Connected | packages/core/src/test-runner.ts:370-373 | The write loop starts. |
| TestRunner.Exchange.WriterTurn | packages/core/src/test-runner.ts:373-393 | Stops when settled or destroyed, hangs up at the cut, else takes what the cut allows of the next chunk. |
| TestRunner.Exchange.WriteDone | packages/core/src/test-runner.ts:393-407 | Counts the write and hangs up once the cut is reached. |
| TestRunner.Exchange.Data | packages/core/src/test-runner.ts:331-356 | Settles on a fatal failure or on enough responses. |
| TestRunner.Exchange.TimerFires | packages/core/src/test-runner.ts:295-308 | Settles; timed out only if no response was decoded. |
| TestRunner.Exchange.SocketError | packages/core/src/test-runner.ts:327-329 | Settles with the error. |
| TestRunner.Exchange.CloseEvent | packages/core/src/test-runner.ts:358-368 | Settles; disconnected only if responses are missing, and octets still buffered are noted as truncated. |
| SessionStore.RunsKeepSound | packages/core/src/session-store.ts:216-400 | Over every sequence of operations: rule ids unique, names unique, sequences strictly ascending below the next, no two enabled rules of one priority with equivalent matches, rules and results within their caps. |
| SessionStore.OperationKeepsSound | packages/core/src/session-store.ts:216-400 | Each operation keeps that; a failing one leaves the record unchanged. |
| SessionStore.AddKeepsSound | packages/core/src/session-store.ts:228-260 | A new rule is refused as a conflict if and only if storing it would break the rule set. |
| SessionStore.UpdateKeepsSound | packages/core/src/session-store.ts:287-331 | An update is refused as a conflict if and only if making it would break the rule set. |
| SessionStore.AddIsExact | packages/core/src/session-store.ts:243-277 | A rule is added behind the others with what was asked, and enabled, priority 0 and no hits by default. |
| SessionStore.UpdateIsExact | packages/core/src/session-store.ts:296-334 | Each patched field of the rule has the patch's value; every other field and rule is as it was. |
| SessionStore.RemoveIsExact | packages/core/src/session-store.ts:344-354 | Just the rule with that id is gone. |
| SessionStore.HitIsExact | packages/core/src/session-store.ts:380-387 | A hit counts on the rule with that id and nowhere else. |
| SessionStore.CloseIsExact | packages/core/src/session-store.ts:175-179 | Closing only closes. |
| SessionStore.StatusIff | packages/core/src/session-store.ts:216-356 | 405 on a closed session before anything else, 422 on a full one, 406 for an unknown rule, 409 if and only if the rule set would break. |
| SessionStore.ClashIff | packages/core/src/session-store.ts:246-252 | Two rules clash if and only if both are enabled, of one priority, and their conditions are the same up to header order and case. |
| SessionStore.ReachableRulesDeterministic | packages/core/src/session-store.ts:216-387 | On every reachable rule set the matcher's order is total. |
| SessionStore.ClosedIsReadOnly | packages/core/src/session-store.ts:448-458 | No run reopens a closed session or changes one of its rules beyond the hit count. |
| SessionStore.ResultsAreTheLast | packages/core/src/session-store.ts:392-400 | Whatever else happens, a session holds the last results added, in order, up to the cap. |
| SessionStore.StoredAreTheLast | packages/core/src/session-store.ts:392-400 | From an empty session, exactly the last results added are held, as many as there are up to the cap. |
| SessionStore.ConflictsOnAdd | packages/core/src/session-store.ts:228-260 | The three checks together refuse exactly the rules that may not join. |
| SessionStore.ConflictsOnUpdate | packages/core/src/session-store.ts:307-331 | The two checks together refuse exactly the updates that may not be made. |
| SessionStore.ShiftOldest | packages/core/src/session-store.ts:397 | Shifting while over the cap leaves the last ones. |
| SessionStore.SessionIdsDiffer | packages/core/src/ids.ts:17-26 | Generated session ids never collide. |
| SessionStore.SessionStore.constructor | packages/core/src/session-store.ts:87-92 | A new store holds no session. |
| SessionStore.SessionStore.BeginCreate | packages/core/src/session-store.ts:103-111 | Refuses with 503 at the cap on active sessions, else takes an id used by no session and no session being started. |
| SessionStore.SessionStore.FinishCreate | packages/core/src/session-store.ts:114-149 | Adds the empty session once its endpoint listens and touches no other, or refuses with 500 and changes no session. |
| SessionStore.SessionStore.BeginClose | packages/core/src/session-store.ts:168-173 | Refuses exactly the sessions that are not active, unknown and closed ones told apart. |
| SessionStore.SessionStore.FinishClose | packages/core/src/session-store.ts:175-182 | Closes that session and no other, also when an overlapping call closed it meanwhile. |
| SessionStore.SessionStore.AddRule | packages/core/src/session-store.ts:216-279 | Stores the rule with the next sequence, or refuses with the first status that applies and changes nothing. |
| SessionStore.SessionStore.UpdateRule | packages/core/src/session-store.ts:282-336 | Replaces exactly the patched fields of that rule in place, or refuses and changes nothing. |
| SessionStore.SessionStore.DeleteRule | packages/core/src/session-store.ts:339-356 | Removes exactly that rule, or refuses and changes nothing. |
| SessionStore.SessionStore.RecordRuleHit | packages/core/src/session-store.ts:380-387 | Counts one hit on that rule; an unknown session or rule changes nothing. |
| SessionStore.SessionStore.AddResult | packages/core/src/session-store.ts:392-400 | Stores the result, evicting the oldest over the cap, in closed sessions too. |
| Matching.WinnerIsBest | packages/core/src/matching.ts:34-59 | The rule that answers is enabled, matches, and has the highest priority of those that do, the lowest sequence among equals; none answers if and only if none matches. |
| Matching.OrderIrrelevant | packages/core/src/matching.ts:34-39 | With distinct sequences, any permutation of the rules has the same evaluation order, hence the same winner and trace. |
| Matching.TiesKeepOrder | packages/core/src/matching.ts:34-39 | Rules of one priority and sequence would keep their stored order. |
| Matching.MatchRule | packages/core/src/matching.ts:42-59 | Returns the first firing rule of the evaluation order with a trace of exactly the rules up to it. |
| Matching.TraceShape | packages/core/src/matching.ts:43-58 | The trace names the rules considered in order; none before the last matched, the last did if and only if a rule answers, disabled rules are said to be, and a failure names its mismatch. |
| Matching.ExplainMatch | packages/core/src/matching.ts:65-121 | The first failing condition, in the order operation, headers, body. |
| Matching.SatisfiesIff | packages/core/src/matching.ts:65-121 | A request satisfies a match if and only if the operation is the one named or any is, every header is there with its value, and the body condition of its mode holds. |
| Matching.MismatchNamed | packages/core/src/matching.ts:65-78 | A mismatch names the operation or a header of the match, with what came instead. |
| Matching.IncludesIff | packages/core/src/matching.ts:86-88 | The contains test holds if and only if the part stands somewhere in the text. |
| Matching.EqualKeysSameRequests | packages/core/src/matching.ts:145-167 | Matches with equal canonical keys accept exactly the same requests. |
| Matching.EquivalentIff | packages/core/src/matching.ts:152-167 | With case-insensitively distinct names, keys are equal if and only if operation, case-folded header map and body condition are equal. |
| Matching.HeadersHold | packages/core/src/matching.ts:70-78 | Header conditions hold as a set: order and casing of the rule's headers do not matter. |
| Matching.WeakerJsonRule | packages/core/src/matching.ts:89-105 | A rule wanting a JSON subset of what another wants fires on every body the other fires on. |
| Json.SubsetReflexive | packages/core/src/matching.ts:127-143 | Every JSON value is a subset of itself. |
| Json.FewerKeys | packages/core/src/matching.ts:137-142 | Taking keys away from an object gives a subset of it; adding one that is not there does not. |
| Json.ListsMatchWhole | packages/core/src/matching.ts:127-135 | Lists of different lengths never match; anything but a list or an object matches only its equal. |
| Json.SubsetInside | packages/core/src/matching.ts:132-142 | A subset stays one inside an object or a list. |
| Json.SubsetTransitive | packages/core/src/matching.ts:127-143 | The subset test is transitive. |
| Json.SubsetAntisymmetric | packages/core/src/matching.ts:127-143 | Values that are subsets of each other are equal. |
| Sorting.SortCanonical | packages/core/src/matching.ts:34-39 | Sorting by a strict order forgets the order of the input. |
| Sorting.SortAscending | packages/core/src/matching.ts:34-39 | The sorted list ascends strictly when elements are comparable. |
| Sorting.SortStable | packages/core/src/matching.ts:34-39 | Sorting keeps tied elements in the order they came. |
| EditDistance.DistanceIsLeast | apps/cli/src/options.ts:269-281 | The distance is the least number of insertions, deletions and replacements over all edit scripts, and is attained. |
| EditDistance.ComputeDistance | apps/cli/src/options.ts:269-281 | The single-row loops compute that distance. |
| EditDistance.NextRow | apps/cli/src/options.ts:272-279 | One row of the table from the row before. |
| EditDistance.ScriptsAreLong | apps/cli/src/options.ts:268-281 | No script is shorter than the distance. |
| EditDistance.BestScriptTransforms | apps/cli/src/options.ts:268-281 | A script of that length exists and works. |
| EditDistance.EditIsCheap | apps/cli/src/options.ts:275-276 | One edit anywhere in a string changes its distance to any other by at most one. |
| EditDistance.ZeroIffEqual | apps/cli/src/options.ts:269-281 | The distance is zero if and only if the strings are equal. |
| EditDistance.DistanceSymmetric | apps/cli/src/options.ts:269-281 | It is symmetric. |
| EditDistance.TriangleInequality | apps/cli/src/options.ts:269-281 | It satisfies the triangle inequality. |
| EditDistance.NearestFlag | apps/cli/src/options.ts:252-266 | Suggests the first known flag at the least distance; suggests nothing if and only if none is within the threshold. |
| EditDistance.ThresholdTable | apps/cli/src/options.ts:264-265 | One edit for names of up to three letters, two up to five, three beyond. |
| SignTest.PairedSignTest | benchmarks/stats.ts:90-111 | The p-value is exactly the fraction of all 2^n win/loss sequences at least as lopsided as the observed one, ties left out, no rounds and even splits included. |
| SignTest.TwoSided | benchmarks/stats.ts:104-108 | Doubling the tail and capping at 1 gives that fraction. |
| SignTest.CountWins | benchmarks/stats.ts:92-100 | The loop counts the rounds that are no tie and those the left side won. |
| SignTest.DecisionsCount | benchmarks/stats.ts:91-100 | The rounds counted are those where the sides differ and the wins those where the left is ahead. |
| SignTest.Choose | benchmarks/stats.ts:71-76 | The multiplicative loop yields the binomial coefficient: every division on the way is exact. |
| SignTest.Absorption | benchmarks/stats.ts:74 | The identity that makes each quotient whole. |
| SignTest.BinomialCounts | benchmarks/stats.ts:70-76 | That coefficient counts the sequences with k wins. |
| SignTest.BinomialSymmetric | benchmarks/stats.ts:105-107 | As many sequences have k wins as have k losses. |
| SignTest.TailCountsLopsided | benchmarks/stats.ts:104-108 | Twice the tail, capped, counts the sequences at least as lopsided. |
| SignTest.OutcomesCard | benchmarks/stats.ts:108 | There are 2^n sequences. |
| SignTest.SwappedDecisions | benchmarks/stats.ts:91-100 | Swapping the sides swaps wins and losses. |
| SignTest.ShareSymmetric | benchmarks/stats.ts:105-108 | So it leaves the p-value unchanged. |
| SignTest.SignificanceNeedsSixRounds | benchmarks/run.ts:34-42 | Some split of n rounds is significant at 5 per cent if and only if n is at least six. |
| SignTest.FewRoundsNeverSignificant | benchmarks/run.ts:34-42 | Below six rounds no split is. |
| SignTest.SweepSignificant | benchmarks/run.ts:34-42 | From six rounds on a clean sweep is. |

## Left out

- Sockets, listeners, the HTTP bridge, the graphical interface, command-line rendering, logging and file state are input and output.
- UTF-8 decoding: octets are characters of one octet each. Only re-encoding depends on it; there decoding and encoding a body is a parameter, any function on octets. Headers with octets outside ASCII, Unicode whitespace removed by `trim`, and case folding outside ASCII are not modelled.
- `JSON.parse` and `RegExp` are parameters that may fail; nothing is assumed of them. The canonical match key is a datatype, not the string `JSON.stringify` prints.
- JavaScript records: reordering of integer-like keys, `__proto__`, and inherited keys seen by `in` are not modelled; a record is the list of its entries.
- Floating point: the token bucket and the sign test use exact reals. A Content-Length is an exact natural number; above 2^53 both branches of the code give the same reason.
- A clock that moves backwards, for the token bucket.
- The server's shutdown: the grace loop and the refusal of requests while it lasts.
- Which requests are invalid is a choice of the environment, as are handler outcomes; none of them closes the connection outside shutdown.
- ControlConnection.Connection.BeginJob: the rules of request validation are not modelled, and all requests one chunk completes read the same clock.
- The relay's ordering of request and response and its table of sent messages.
- SessionStore.SessionStore.BeginCreate: the cap on active sessions is checked before the endpoint starts, so overlapping calls may exceed it and no bound on active sessions is stated.
- Names, descriptions and timestamps of session records, and the endpoint object itself.
- `nextId` is modelled as one counter for each store; several stores in one process would skip numbers.
- Field-by-field validation, the registries of operations and statuses, option tables, display and formatting would only add easy members, and so would percentile, summarise and relativeSpread of benchmarks/stats.ts.
- Error texts and details: the status, reason and body of an error response are parameters. Delays are timing of the environment.
- The client's `connect` after a close.
- Client.SltpClient.Send: the wait for the write callback is left to the environment.
- Timings and the list of wire segments in the result of an exchange; the texts of assertions.
- ControlConnection.EveryRun: when the peer ends its side the runtime ends the socket, since half-open connections are not allowed; the step `PeerEnd` models that, and responses after it are lost without the socket being destroyed. Says nothing about when a handler finishes, a write completes or a half-closed socket is forced shut; liveness is the environment's.
- RoundTrip.PipelinedRoundTrip: header blocks must be three octets under the limit, which SurvivesChunkingIff shows to be necessary.
- RateLimit.WindowBound: needs a capacity of at least one and a positive refill rate, which the options are expected to give; the call itself is modelled for any.
