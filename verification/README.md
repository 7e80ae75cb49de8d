# BoostConnect, modelled and proved in Dafny

BoostConnect is a C++ library of HTTP clients and servers on top of Boost.Asio and
Boost.Spirit.  This project models its protocol logic and proves what that logic promises:

- **Reading responses** (`Wire`, `Reader`, `ResponseReading`, `EndToEnd`, `ChunkedResponses`,
  `ChunkFate`).  A socket is a list of segments followed by the end of the stream, so a claim
  about every list with the same concatenation is a claim about every segmentation.  Segments have
  any length.  `Reader`
  holds the client's reader twice, as in the library: mutual recursion for the synchronous form, a
  chain of callbacks for the asynchronous one.  Class `HttpReader` changes buffer and response in
  place and is proved equal to specification functions on *every* stream; the theorems are about
  those functions.
- **Messages** (`Grammar`, `Messages`).  Spirit rules are greedy parsers with ordered choice, which
  keep what a failing rule had already stored.  Printing and parsing are proved inverse.
- **Sessions and the server** (`Session`, `RequestReading`, `Server`, `Exchange`).  Every completion
  handler is a step; invariants hold over all interleavings of accepts, completions and timer
  reports, and what a session writes is followed to the client's readers.
- **Percent-coded maps** (`Radix`, `PercentEncoder`, `Syntax`, `OrderedMap`).
- **Multipart contents** (`Multipart`, `MultipartContent`): objects with lazily chosen boundaries
  and cached bodies, which may share parts but not contain themselves, and why the rendered text
  can be split again.
- **Texts** (`KnownTexts`): what the printers write, letter by letter.

Strings are Dafny strings; where it matters that a character is a byte, the lemma says so.
`size_t` subtraction is modulo 2^64, `int` and `unsigned int` have their ranges, and texts that
pass through C strings are cut at the first NUL.  A buffer is taken to be followed by a NUL when
it is read as a C string.

## What the code does not keep

The proofs are of the code as it is.  Where it keeps less than its purpose suggests, it is proved
exactly when it does, in both directions; for sessions and the server, over all runs:

- The rule for field names may run across the blank line.  A body, or a chunked payload, whose
  first `": "` is followed by text and a line end, and which was read ahead that far, becomes a
  header field (`Grammar.Swallows`, `Messages.HeaderExact`).
- The server prints no blank line in front of an empty body.  The synchronous reader then throws;
  the asynchronous one succeeds only with a Content-Length (`EndToEnd.EmptyBodySync`,
  `EndToEnd.EmptyBodyAsync`).
- Bytes beyond the Content-Length that arrived with it are appended to the body, and the
  synchronous form leaves them in the buffer too (`EndToEnd.SizedBodyExact`, `EndToEnd.SurplusTaken`).
- The chunk handler is shown the error of the read that brought the chunk.  A sized read whose
  length wrapped around reports `eof` together with a good chunk, so a handler that looks at the
  error makes the body depend on the segmentation (`ChunkedResponses.ChunkedExact`).
- A size line that does not parse leaves the chunk size unset: the outcome `Undefined`.  The
  asynchronous form instead calls itself for ever, the outcome `Spinning`, when the text in place of
  the size line has one or two characters, or starts with a CRLF that arrives alone, even with
  bytes still to come (`ChunkFate.AsyncClassified`, `ChunkFate.NoSizeDecides`).
- A NUL in a request body cuts it short, and the handler may see less than the Content-Length
  (`RequestReading.ShortBodyExact`, `RequestReading.RequestRoundTrip`).  Without one it never does,
  over all runs (`Session.RunCompletesBodies`, `Server.ServerCompletesBodies`).
- A session never clears its request.  Each later request of a connection is shown to the handler
  run together with all before it, and so never as it was sent (`Session.RunAccumulates`,
  `RequestReading.SecondRequest`).
- A value whose quote is not closed is read twice over (`Syntax.UnclosedValue`).
- Maps with an empty key or value do not come back from their printed form
  (`Syntax.UrlencodeRoundTrip`).
- `radix_converter` means to reject characters that are no digits, but only creates an exception
  object; they count as zero (`Radix.ValueIsNumeral`).
- `decode` reads past the end of a cut-off escape, which is modelled as no result
  (`PercentEncoder.UndefinedIfCutOff`).
- `read_timeout` ignores its error code.  Re-arming the timer for the next keep-alive round reports
  the cancelled wait, and that report closes the connection, under the next header read if need be
  (`RequestReading.TimerCutsKeepAlive`).  A connection is closed exactly when its timer reported or
  its final response was written (`Session.ClosedExactly`, `Server.SessionClosedExactly`).
- A session whose accept or handshake failed stays in the managed set for ever
  (`Server.StuckIsNeverReleased`); any other accepted one, until its timer reports or its final
  response is written (`Server.SessionClosedExactly`).
- A multipart content does not notice a change of its parts behind its cached body
  (`MultipartContent.RenderAround`, `MultipartContent.RenderAfterNested`): the body is then stale
  exactly when the content has become another tree (`MultipartContent.StaleWhen`).  Over sequences
  of calls on the content itself no answer is ever stale (`MultipartContent.Replay`).

## Model

| member | source | states |
|---|---|---|
| `EndToEnd.SyncRoundTrip` | include/boostconnect/session/impl/http_session.ipp:180-206 | Reading what the server prints gives back status code, version, message, header map and body under every segmentation, with one call of the end handler, with the right code, and nothing left over, if and only if the body is non-empty and does not look like a header field; a Content-Length, if any, is a decimal text that spells the length of the body |
| `EndToEnd.AsyncRoundTrip` | include/boostconnect/connection_type/impl/connection_base.ipp:194-288 | The same for the callback chain, which also delivers an empty body when a Content-Length announces it: exact condition |
| `ChunkedResponses.ChunkedAgree` | include/boostconnect/connection_type/impl/connection_base.ipp:142-191 | For every chunk handler and every segmentation, the recursive and the callback form return the same response after the same progress calls, equal to the reference delivery under the error codes of that segmentation; end handler once, respectively once unless a chunk was refused; both leave the same bytes unread |
| `ChunkedResponses.ChunkedProgress` | include/boostconnect/connection_type/impl/connection_base.ipp:184-191 | Whatever the handler answers, in both forms its k-th call sees the concatenation of the first k chunks, and the body ends as the last call saw it |
| `ChunkedResponses.ChunkedExact` | include/boostconnect/connection_type/impl/connection_base.ipp:187 | For payloads of less than 2^64 bytes: every segmentation gives the intended delivery, in both forms, if and only if at each response the handler is shown its answer does not depend on the error code |
| `ChunkedResponses.StopsAtErrors` | include/boostconnect/connection_type/impl/connection_base.ipp:170-187 | A handler that stops at an error does not get the intended delivery under every segmentation: read in one piece, the first chunk already comes with `eof` |
| `ChunkedResponses.ChunkedRoundTrip` | include/boostconnect/connection_type/impl/connection_base.ipp:93-138 | For every chunk list, both forms deliver the concatenation of the chunks under every segmentation if and only if the encoded payload does not look like a header field |
| `ChunkFate.SyncClassified` | include/boostconnect/connection_type/impl/connection_base.ipp:142-191 | For any payload, well-formed or not, the synchronous outcome is decided by the payload alone, and both forms hand over the data of its rounds, however the stream is cut; what each end handler is told is decided by the payload, too |
| `ChunkFate.AsyncClassified` | include/boostconnect/connection_type/impl/connection_base.ipp:292-385 | For any payload, the set of outcomes the asynchronous form can come to under the segmentations is exactly the set that the end of the payload allows |
| `ChunkFate.NoSizeDecides` | include/boostconnect/connection_type/impl/connection_base.ipp:302-320 | Behind well-formed chunks, text without a size line: the synchronous form always uses an unset chunk size; the asynchronous one throws exactly on no text, calls itself for ever exactly on one or two characters or on a CRLF that arrives alone, and otherwise uses an unset chunk size |
| `ChunkFate.SpinsInRounds` | include/boostconnect/connection_type/impl/connection_base.ipp:302-314 | A segmentation that makes the chain call itself for ever with bytes still to come, for every payload whose rounds are followed by a CRLF |
| `ChunkFate.FateAfterChunks` | include/boostconnect/connection_type/impl/connection_base.ipp:142-191 | Well-formed chunks are rounds, and what follows them decides |
| `ChunkFate.ChunkLineExtends` | include/boostconnect/connection_type/impl/connection_base.ipp:82-91 | A size line is recognised whatever was read ahead behind it |
| `ChunkFate.NoSizeRead` | include/boostconnect/connection_type/impl/connection_base.ipp:302 | What can be in the buffer when the stream has no size line |
| `ChunkedResponses.ChunkedExample` | include/boostconnect/connection_type/impl/connection_base.ipp:102-108 | The hypotheses about chunked responses can be met together: a one-chunk response meets them |
| `EndToEnd.SizedBodyExact` | include/boostconnect/connection_type/impl/connection_base.ipp:118-130 | With a Content-Length that spells n, the body is the first n bytes of what was sent under every segmentation if and only if the peer sends no more than n, in the synchronous and in the asynchronous form: surplus read ahead is appended too |
| `EndToEnd.SizedBodyEnds` | include/boostconnect/connection_type/impl/connection_base.ipp:118-138 | A peer that sends no more than announced: both forms hand over what came, and the end handler is told `eof` exactly when something is missing |
| `EndToEnd.SurplusTaken` | include/boostconnect/connection_type/impl/connection_base.ipp:122-129 | More than announced, in one piece: both forms append it all and report `eof`; behind the synchronous form the surplus is still in the buffer |
| `EndToEnd.BadLengthExact` | include/boostconnect/connection_type/impl/connection_base.ipp:121 | Under every segmentation both forms end with `bad_lexical_cast`, without a call of the end handler, if and only if the Content-Length spells no `size_t` |
| `EndToEnd.NoHeaderEnd` | include/boostconnect/connection_type/impl/connection_base.ipp:97 | A stream without a blank line: the synchronous form throws with nothing done |
| `EndToEnd.NoResponse` | include/boostconnect/connection_type/impl/connection_base.ipp:215-221 | An empty stream: the asynchronous form tells the end handler `eof`, then throws |
| `EndToEnd.EmptyBodySync` | include/boostconnect/session/impl/http_session.ipp:198-203 | The printer writes no blank line in front of an empty body, so the synchronous reader throws and the end handler is never called |
| `EndToEnd.EmptyBodyAsync` | include/boostconnect/connection_type/impl/connection_base.ipp:216-221 | The asynchronous reader delivers such a response exactly when it has a Content-Length |
| `EndToEnd.HeaderRead` | include/boostconnect/connection_type/impl/connection_base.ipp:97-100 | Under every segmentation the header is read exactly and buffer plus unread stream is exactly the payload |
| `EndToEnd.HeaderSwallowed` | include/boostconnect/connection_type/impl/connection_base.ipp:66-75 | A payload shaped like a field, read ahead in one piece, always leaves a wrong header map |
| `EndToEnd.SizedReadAll` | include/boostconnect/connection_type/impl/connection_base.ipp:122-125 | A read of `wanted - buffered`, taken modulo 2^64, ends with the whole stream when the stream holds no more than wanted |
| `EndToEnd.SyncResponse` | include/boostconnect/connection_type/impl/sync_connection.ipp:65-81 | A fresh synchronous reader on any segmentation of any printed response that is not one of the excluded kinds returns exactly that response |
| `EndToEnd.AsyncResponse` | include/boostconnect/connection_type/impl/async_connection.ipp:99-112 | The same for a fresh asynchronous reader |
| `ResponseReading.SyncChunks` | include/boostconnect/connection_type/impl/connection_base.ipp:142-191 | At every size line, buffer plus unread stream is the encoding of the chunks still to come; for every handler the recursive form delivers them all, or stops behind the first refused one |
| `ResponseReading.AsyncChunks` | include/boostconnect/connection_type/impl/connection_base.ipp:292-385 | The same for the callback form, which never re-arms a read on a well-formed stream; end handler exactly when the zero chunk was reached |
| `ResponseReading.ChunkRound` | include/boostconnect/connection_type/impl/connection_base.ipp:170-190 | One round of either form consumes exactly size line, chunk and two bytes, whatever was read ahead, appends exactly the chunk and asks the chunk handler once with the error code of that read |
| `ResponseReading.ZeroLine` | include/boostconnect/connection_type/impl/connection_base.ipp:158-159 | The zero size line ends both forms in front of what follows it |
| `ResponseReading.DeliverProgress` | include/boostconnect/connection_type/impl/connection_base.ipp:184-187 | At the k-th call of the chunk handler the body is the concatenation of the first k chunks, and the final body is that of the last call, under any error codes |
| `ResponseReading.DeliverStops` | include/boostconnect/connection_type/impl/connection_base.ipp:187 | The calls stop at the first refusal, judged with the code of that chunk; without one every chunk is delivered |
| `ResponseReading.SteadyDelivers` | include/boostconnect/connection_type/impl/connection_base.ipp:187 | A handler that answers alike with and without an error gets the same delivery under any codes |
| `ResponseReading.SameThroughEof` | include/boostconnect/connection_type/impl/connection_base.ipp:187 | If `eof` throughout leads to the same calls and the same end as no error, the handler answers alike wherever it was asked |
| `ResponseReading.OneSegmentCodes` | include/boostconnect/connection_type/impl/connection_base.ipp:171-174 | When the whole payload was read ahead the sized reads wrap around and every chunk comes with `eof` |
| `ResponseReading.SizeLineRead` | include/boostconnect/connection_type/impl/connection_base.ipp:146-155 | However the stream is cut, reading up to CRLF buffers the whole size line, which parses to the chunk size and is consumed exactly |
| `ResponseReading.ChunkDataRead` | include/boostconnect/connection_type/impl/connection_base.ipp:171-185 | The sized read puts the whole chunk at the front of the buffer, also when more was buffered than wanted and the subtraction wraps |
| `Reader.HttpReader.ReadStarter` | include/boostconnect/connection_type/impl/connection_base.ipp:93-138 | The imperative reader leaves socket, buffer, response and handler calls exactly as the specification `SyncRead` says, on every stream, malformed ones included |
| `Reader.HttpReader.ReadChunkSize` | include/boostconnect/connection_type/impl/connection_base.ipp:142-164 | Mutual recursion over the buffer terminates and equals its specification |
| `Reader.HttpReader.ReadChunkBody` | include/boostconnect/connection_type/impl/connection_base.ipp:167-191 | Likewise, with the short-buffer error path |
| `Reader.HttpReader.AsyncReadStarter` | include/boostconnect/connection_type/impl/connection_base.ipp:194-209 | The event loop over the callback chain computes `AsyncRun` on every stream; where the chain would call itself for ever the loop stops with the outcome `Spinning` instead |
| `Reader.HttpReader.AsyncReadHeader` | include/boostconnect/connection_type/impl/connection_base.ipp:212-267 | The header callback: empty buffer, chunked, until the end, or sized |
| `Reader.HttpReader.AsyncReadAll` | include/boostconnect/connection_type/impl/connection_base.ipp:270-288 | The body callback appends and drops the whole buffer |
| `Reader.HttpReader.AsyncReadChunkSize` | include/boostconnect/connection_type/impl/connection_base.ipp:292-350 | The size-line callback with its four ways out |
| `Reader.HttpReader.AsyncReadChunkBody` | include/boostconnect/connection_type/impl/connection_base.ipp:353-385 | The chunk callback with its silent end on a short buffer |
| `Reader.CallbackProgress` | include/boostconnect/connection_type/impl/connection_base.ipp:212-393 | No callback adds bytes, each one that asks for another chunk read has removed some, and none goes back to the header: the termination measure of the chain |
| `Reader.RearmedForever` | include/boostconnect/connection_type/impl/connection_base.ipp:302-314 | When the read of a size line ends with one or two characters in the buffer, the completion of the re-armed read changes nothing and re-arms again, any number of times over: the chain calls itself for ever |
| `Wire.ReadUntilExact` | include/boostconnect/connection_type/impl/connection_base.ipp:97 | Reading up to a delimiter loses nothing, succeeds exactly when the delimiter is still to come, and otherwise ends with the whole stream buffered |
| `Wire.ReadUntilLeast` | include/boostconnect/connection_type/impl/connection_base.ipp:97 | It takes no segment while the buffer has the delimiter |
| `Wire.ReadAtLeastExact` | include/boostconnect/connection_type/impl/connection_base.ipp:171-174 | A sized read loses nothing and succeeds exactly when the stream holds enough |
| `Wire.ReadAtLeastLeast` | include/boostconnect/connection_type/impl/connection_base.ipp:122-125 | It takes no segment once enough bytes have come |
| `Wire.SizedRead` | include/boostconnect/connection_type/impl/connection_base.ipp:122-125 | With the length computed modulo 2^64: success means the buffer holds what was wanted, and it falls short exactly when the stream does |
| `Wire.Socket.Until` | include/boostconnect/connection_type/impl/connection_base.ipp:97 | The loop over segments equals the specification of `read_until` |
| `Wire.Socket.AtLeast` | include/boostconnect/connection_type/impl/connection_base.ipp:122-125 | The loop over segments equals the specification of a read with `transfer_at_least` |
| `Wire.Socket.All` | include/boostconnect/connection_type/impl/connection_base.ipp:112 | The loop over segments takes in all that is left and ends with `eof` |
| `Messages.HeaderExact` | include/boostconnect/connection_type/impl/connection_base.ipp:62-80 | A header block is consumed to its exact length with exactly its fields if and only if the text read ahead does not look like one more field |
| `Messages.HeaderOnto` | include/boostconnect/connection_type/impl/connection_base.ipp:62-80 | Parsed into a response that is not fresh, texts are appended, and of two fields with the same name the earlier one stays |
| `Messages.StatusLineParses` | include/boostconnect/connection_type/impl/connection_base.ipp:69-72 | The printed status line parses back to version, code and message, in front of any text |
| `Messages.StatusLineBroken` | include/boostconnect/connection_type/impl/connection_base.ipp:69-72 | A status line that breaks off before its code is not consumed, but the version, if there is one, is kept |
| `Messages.StatusLineCutOff` | include/boostconnect/connection_type/impl/connection_base.ipp:69-72 | One that breaks off behind its code or its message is not consumed either, and keeps what was read |
| `Messages.StatusLineEmptyPart` | include/boostconnect/connection_type/impl/connection_base.ipp:69-72 | Nor is one without version or message |
| `Messages.RequestHeaderExact` | include/boostconnect/session/impl/http_session.ipp:218-239 | The same if-and-only-if for the request parser and its looser rule for names |
| `Messages.RequestLineParses` | include/boostconnect/session/impl/http_session.ipp:224-229 | A request line parses back to method, path and version |
| `Messages.RequestLineBroken` | include/boostconnect/session/impl/http_session.ipp:224-229 | A malformed request line is not consumed, but the parts in front of the failure are kept |
| `Messages.RequestLineEmptyPart` | include/boostconnect/session/impl/http_session.ipp:224-229 | The same where method, path or version is missing |
| `Messages.RequestHeaderOnto` | include/boostconnect/session/impl/http_session.ipp:218-239 | Parsed on top of an earlier request, the parts of the request line are appended, and of two fields with the same name the earlier one stays |
| `Messages.RequestWithoutBlankLine` | include/boostconnect/session/impl/http_session.ipp:231-238 | Without the blank line the fields are kept, but only the request line counts as consumed |
| `Grammar.FieldListExact` | include/boostconnect/connection_type/impl/connection_base.ipp:74-75 | The field list in front of a blank line: the printed fields and nothing more, or at least one more whose name starts with CR, decided by `Swallows` |
| `Grammar.SwallowsIff` | include/boostconnect/connection_type/impl/connection_base.ipp:66 | The name rule runs across the blank line exactly when the rest has the shape `name: value CRLF` |
| `Grammar.QuietWithoutStop` | include/boostconnect/connection_type/impl/connection_base.ipp:66 | A payload without the text that ends a name is never taken for a field, whatever else it holds |
| `Grammar.SwallowsExtends` | include/boostconnect/connection_type/impl/connection_base.ipp:66 | A payload shaped like a field stays so when more of it is read ahead |
| `Grammar.BlockIsComplete` | include/boostconnect/connection_type/impl/connection_base.ipp:97 | Any prefix of a message that contains a blank line contains the whole header block and then a prefix of the payload |
| `Grammar.IntRoundTrip` | include/boostconnect/session/impl/http_session.ipp:208-216 | Printing an `int` and parsing it back is the identity, in front of any non-digit |
| `Grammar.IntTextIs` | include/boostconnect/session/impl/http_session.ipp:184-188 | The printed number is the decimal text without leading zeros or needless sign, and no other |
| `Grammar.ParseIntExact` | include/boostconnect/session/impl/http_session.ipp:208-216 | Exactly the texts that begin with an optional sign and digits of a number within `int` parse, and to that number |
| `Grammar.SizeCastExact` | include/boostconnect/connection_type/impl/connection_base.ipp:121 | Exactly the texts that are an optional sign and digits of a number below 2^64 are cast, to that number, negative ones counted from 2^64 downwards |
| `Grammar.DigitsSpell` | include/boostconnect/connection_type/impl/connection_base.ipp:121 | Decimal digits spell their value and nothing else |
| `Grammar.ChunkLineParses` | include/boostconnect/connection_type/impl/connection_base.ipp:82-91 | Any hexadecimal spelling of an `unsigned int`, in either case and with leading zeros, parses as a size line |
| `RequestReading.RequestRoundTrip` | include/boostconnect/session/impl/http_session.ipp:94-138 | The request handler receives exactly the sent method, path, version, header map and body under every segmentation if and only if the body has no NUL and does not look like a header field; the Content-Length declares the length of the body |
| `RequestReading.ShortBodyExact` | include/boostconnect/session/impl/http_session.ipp:94-138 | For every sendable request: under no segmentation is a body shown short of its Content-Length if and only if it has no NUL |
| `Session.DeclaresExact` | include/boostconnect/session/impl/http_session.ipp:104 | What the session takes for the Content-Length is the number its text begins with, modulo 2^64, or 0 without one |
| `Session.NumeralDeclares` | include/boostconnect/session/impl/http_session.ipp:208-216 | A printed `int` declares itself, a negative one wraps around |
| `RequestReading.FirstRequestRuns` | include/boostconnect/session/impl/http_session.ipp:70-138 | What is proved about a first request is about a run of a new session |
| `RequestReading.HeaderTakenExact` | include/boostconnect/session/impl/http_session.ipp:98-102 | After the header read the session holds the request and the part of the body that was read ahead, cut at its first NUL, unless that part is swallowed |
| `RequestReading.ReceivesFails` | include/boostconnect/session/impl/http_session.ipp:132-133 | Delivered in one piece, a body with a NUL or shaped like a field is never received as sent |
| `Session.ReactKeepsInv` | include/boostconnect/session/impl/http_session.ipp:44-177 | Every completion and timer report keeps: at most one operation in flight, close-handler calls equal rounds minus outstanding timers plus final responses, a served session has a timer out or was closed, the close handler never runs on an open socket, handled requests never outnumber header reads |
| `Session.ReactExact` | include/boostconnect/session/impl/http_session.ipp:104-136 | Every event leaves a pending body read asking for exactly what is missing, and the handled requests stay complete if and only if, should it be a body read, the text in front of its first NUL makes up for what is missing |
| `Session.RunCompletesBodies` | include/boostconnect/session/impl/http_session.ipp:94-160 | Over every run of a new session whose body reads hold no NUL, keep-alive rounds included, the request handler never sees a body shorter than the parsed Content-Length; `ShortBodyExact` and `NulCutsBody` are the converse |
| `Session.RunAnswers` | include/boostconnect/session/impl/http_session.ipp:140-160 | Over every run, the texts written so far and the one being written are the printed answers of the request handler to the requests it was shown, one each, in order |
| `Session.RunAccumulates` | include/boostconnect/session/impl/http_session.ipp:94-138 | Over every run, each request shown to the handler has grown out of every earlier one: its texts continue theirs, and their fields are kept |
| `Session.WrittenExact` | include/boostconnect/session/impl/http_session.ipp:162-177 | After every run: when an answer is written, another header read and timer wait start if the request last handled has `Connection: Keep-Alive` or `Proxy-Connection: Keep-Alive`; otherwise the socket is closed and the close handler called |
| `Session.FailureStops` | include/boostconnect/session/impl/http_session.ipp:70-177 | A failed handshake, read or write ends the chain and changes nothing else |
| `Session.BodyReadExact` | include/boostconnect/session/impl/http_session.ipp:128-138 | One body read: the handled request is complete exactly when the first NUL of the buffer is not before the missing bytes |
| `Session.NoNulSuffices` | include/boostconnect/session/impl/http_session.ipp:113 | A body read that completes without a NUL always brings enough, also when `byte - length` wrapped |
| `Session.StartsPending` | include/boostconnect/session/impl/http_session.ipp:44-60 | A started session begins in the invariant, with nothing handled |
| `Session.ClosedExactly` | include/boostconnect/session/impl/http_session.ipp:88-92 | After every run of a new session the socket is closed if and only if the read timer reported, expired or cancelled, or the final response was written; the close handler ran once for each report and once for the final response |
| `RequestReading.NulCutsBody` | include/boostconnect/session/impl/http_session.ipp:132-135 | From a new session, for every request with a NUL in its body: cut behind the header it is handled short of its Content-Length |
| `RequestReading.TimerCutsKeepAlive` | include/boostconnect/session/impl/http_session.ipp:81-92 | For every request without a body that asks for keep-alive: served, answered, and then closed by the report of the cancelled wait while the next header read is in flight |
| `RequestReading.SecondRequest` | include/boostconnect/session/impl/http_session.ipp:98-102 | For any two requests without a body, the first asking for keep-alive: the handler is shown the first, then both run together, which is never the second |
| `RequestReading.KeepAliveExample` | include/boostconnect/session/impl/http_session.ipp:142-144 | A request that asks for keep-alive as these two results suppose |
| `Session.CompletedRead` | include/boostconnect/session/impl/http_session.ipp:113 | Whatever `byte - length` wraps to, a completed read makes the body long enough |
| `Session.HttpSession.Start` | include/boostconnect/session/impl/http_session.ipp:44-60 | A session starts once; a second call changes nothing |
| `Session.HttpSession.End` | include/boostconnect/session/impl/http_session.ipp:61-67 | The socket is closed and the given close handler runs |
| `Session.HttpSession.HandleHandshake` | include/boostconnect/session/impl/http_session.ipp:70-86 | On success exactly one header read and one timer wait are started; on error nothing happens |
| `Session.HttpSession.ReadTimeout` | include/boostconnect/session/impl/http_session.ipp:88-92 | Every report of the timer ends the session, a cancelled wait as well as an expired one |
| `Session.HttpSession.HandleHeaderRead` | include/boostconnect/session/impl/http_session.ipp:94-126 | Whole new state: request accumulated, then a body read of what is missing or the request handler |
| `Session.HttpSession.HandleBodyRead` | include/boostconnect/session/impl/http_session.ipp:128-138 | Whole new state: body text up to a NUL appended, then the request handler |
| `Session.HttpSession.HandleRequestReadComplete` | include/boostconnect/session/impl/http_session.ipp:140-160 | Keep-alive decided from two headers, handler called once with the request, one write of the printed response started |
| `Session.HttpSession.HandleWrite` | include/boostconnect/session/impl/http_session.ipp:162-177 | Keep-alive starts another round, otherwise the session ends |
| `Session.HttpSession.Dispatch` | include/boostconnect/session/impl/http_session.ipp:44-177 | The object follows the step function and keeps the session invariant |
| `Server.EveryRunIsSafe` | include/boostconnect/impl/server.ipp:30-70 | Over every interleaving: outstanding accepts equal external calls of `start`; a session is managed exactly when accepted and its close handler has not run; every session keeps its invariant; failed ones never start |
| `Server.RunKeepsInv` | include/boostconnect/impl/server.ipp:30-70 | The invariant is kept over every run from every state that has it |
| `Server.ActKeepsInv` | include/boostconnect/impl/server.ipp:57-70 | One step for each kind of action: start, accept with its re-arming, delivery with its release |
| `Server.FailedAcceptIsNeverReleased` | include/boostconnect/impl/server.ipp:63 | A session whose accept failed is ended with an empty close handler and stays managed in every later state |
| `Server.StuckIsNeverReleased` | include/boostconnect/impl/server.ipp:57-70 | An accepted session with nothing in flight that never began a round stays so, and managed, over every later run |
| `Server.FailedHandshakeIsStuck` | include/boostconnect/session/impl/http_session.ipp:70-86 | A failed handshake leaves a session of that kind |
| `Server.SessionClosedExactly` | include/boostconnect/session/impl/http_session.ipp:88-92 | At every moment of every server run: a session is closed if and only if its accept failed, its timer reported or its final response was written; it is managed if and only if it was accepted and neither of the last two happened; the close handler calls are counted exactly |
| `Server.SessionIsRun` | include/boostconnect/impl/server.ipp:57-64 | In every server run, each session accepted without an error has gone through exactly its own events, as a run of a new session: all results over session runs hold for it |
| `Exchange.FirstExchange` | include/boostconnect/session/impl/http_session.ipp:94-206 | For every request that can be sent and every handler whose answer can be sent: the handler is shown the request, and what the session writes reaches both of the client's readers as the answer to it, wherever the two streams are cut |
| `Exchange.RunExchanges` | include/boostconnect/session/impl/http_session.ipp:140-177 | Over every session run: the i-th text written arrives at the client as the handler's answer to the i-th request handled |
| `Exchange.ServerExchanges` | include/boostconnect/impl/server.ipp:57-70 | The same for every session of every server run |
| `Server.QuietSessionIsClosed` | include/boostconnect/session/impl/http_session.ipp:88-92 | A session with nothing in flight called the close handler once for every round plus once for a final response, handled at most one request a round, is closed once it has served, and is managed if and only if it was accepted and never started to read |
| `Server.ServerCompletesBodies` | include/boostconnect/session/impl/http_session.ipp:104-136 | Over every interleaving of any number of sessions whose body reads hold no NUL, no request is handled short of its Content-Length |
| `Server.HttpServer.Start` | include/boostconnect/impl/server.ipp:30-55 | A fresh session waits to be accepted, nothing else changes; the server invariant is kept |
| `Server.HttpServer.HandleAccept` | include/boostconnect/impl/server.ipp:57-64 | Re-arm, manage, then start or end: the whole state of the server and of all its sessions; the server invariant is kept |
| `Server.HttpServer.HandleClosed` | include/boostconnect/impl/server.ipp:66-70 | Exactly this session leaves the managed set, repeated calls included |
| `Server.HttpServer.Deliver` | include/boostconnect/impl/server.ipp:62 | A completion moves one session, releases it if its close handler ran, and leaves all others alone; the server invariant is kept |
| `Server.Manager.Run` | include/boostconnect/impl/manager.ipp:30-34 | The object is in the set, nothing else changes |
| `Server.Manager.Stop` | include/boostconnect/impl/manager.ipp:36-40 | The object is out of the set, nothing else changes |
| `Syntax.UrlencodeRoundTrip` | include/boostconnect/utility/impl/syntax.ipp:48-60 | Parsing a printed map gives the map back if and only if it has no empty key or value |
| `Syntax.AuthorizationRoundTrip` | include/boostconnect/utility/impl/syntax.ipp:61-73 | The same for the quoted, comma-separated form |
| `Syntax.ParseInvertsGenerate` | include/boostconnect/utility/impl/syntax.ipp:82-96 | The generic parser inverts the generic printer for separators and containers of any length that can be told from the entries; the empty container falls through to the second alternative |
| `Syntax.PairsInvertJoined` | include/boostconnect/utility/impl/syntax.ipp:86-89 | On the level of field lists, in printed order |
| `Syntax.ValueParses` | include/boostconnect/utility/impl/syntax.ipp:87 | A value is read back whole through the quoted or the bare alternative |
| `Syntax.WhiteDoesNotMatter` | include/boostconnect/utility/impl/syntax.ipp:86-93 | For separators and containers of one character: white space anywhere in the source, inside keys and values too, makes no difference to the parsed map |
| `Syntax.PairsGoOn` | include/boostconnect/utility/impl/syntax.ipp:89 | Behind printed fields and a separator the list goes on with whatever fields follow, and keeps what it has when none do |
| `Syntax.RestIgnored` | include/boostconnect/utility/impl/syntax.ipp:87-92 | What follows a closing container, up to the end of the source, is ignored unless it starts with a field separator |
| `Syntax.UnclosedValue` | include/boostconnect/utility/impl/syntax.ipp:87 | A value whose container is never closed is read twice over: the failed first alternative leaves what it collected in front of what the second one reads |
| `Syntax.DecodeEncodedMap` | include/boostconnect/utility/impl/syntax.ipp:98-110 | Decoding and re-sorting the encoded, re-sorted map gives the map back |
| `Syntax.EncodedMapSize` | include/boostconnect/utility/impl/syntax.ipp:50-58 | Re-keying loses nothing: `insert` never meets an equal key, so the encoded map is as large |
| `Syntax.EncodedMapLookup` | include/boostconnect/utility/impl/syntax.ipp:50-58 | Every entry is found under its encoded key |
| `Syntax.EncodedMapOrigin` | include/boostconnect/utility/impl/syntax.ipp:50-58 | Every encoded key comes from an entry and decodes to it |
| `OrderedMap.BelowExact` | include/boostconnect/utility/impl/syntax.ipp:52 | Maps are walked in the order of their keys: a prefix first, else the smaller character at the first difference |
| `OrderedMap.EntriesAscend` | include/boostconnect/utility/impl/syntax.ipp:52 | The entries come in strictly ascending order of keys |
| `Syntax.OneFieldPerEntry` | include/boostconnect/utility/impl/syntax.ipp:39 | Both printed forms of a map of n entries hold n - 1 field separators and n key separators, the quoted one 2n quotes, empty entries included |
| `Syntax.UrlencodeInjective` | include/boostconnect/utility/impl/syntax.ipp:48-60 | Distinct maps print differently |
| `Syntax.NothingEmptyComesBack` | include/boostconnect/utility/impl/syntax.ipp:86-87 | No text at all parses to a map with an empty key or value |
| `Syntax.EncodedLacks` | include/boostconnect/utility/impl/syntax.ipp:59 | Encoded text contains no separator, quote or whitespace |
| `Syntax.EncodeMap` | include/boostconnect/utility/impl/syntax.ipp:50-58 | The insertion loop computes the encoded map |
| `Syntax.DecodeMap` | include/boostconnect/utility/impl/syntax.ipp:100-109 | The insertion loop computes the decoded map, or nothing where a decode is undefined |
| `Syntax.GenerateUrlencode` | include/boostconnect/utility/impl/syntax.ipp:48-60 | The printed text parses back to the map exactly when the map has no empty entry |
| `Syntax.GenerateAuthorizationField` | include/boostconnect/utility/impl/syntax.ipp:61-73 | The same for the quoted, comma-separated form |
| `Syntax.ParseUrlencode` | include/boostconnect/utility/impl/syntax.ipp:98-110 | Recovers the map from its printed text, and never yields an empty key or value |
| `Syntax.ParseAuthorizationField` | include/boostconnect/utility/impl/syntax.ipp:111-123 | The same for the quoted, comma-separated form |
| `PercentEncoder.DecodeEncode` | include/boostconnect/utility/impl/percent_encoder.ipp:43-56 | Decoding undoes encoding for every byte string |
| `PercentEncoder.DecodePrefix` | include/boostconnect/utility/impl/percent_encoder.ipp:43-56 | It does so in front of any further text |
| `PercentEncoder.EncodeInjective` | include/boostconnect/utility/impl/percent_encoder.ipp:25-41 | Different byte strings are encoded differently |
| `PercentEncoder.EncodeConcat` | include/boostconnect/utility/impl/percent_encoder.ipp:25-41 | Encoding distributes over concatenation |
| `PercentEncoder.ReencodeFixesCanonical` | include/boostconnect/utility/impl/percent_encoder.ipp:25-56 | Decoding and encoding again changes a decodable text exactly when the text is not canonical |
| `PercentEncoder.NormalForm` | include/boostconnect/utility/impl/percent_encoder.ipp:25-56 | For every decodable text, in particular every well-formed one: decoding and encoding again yields a canonical text of the same decoding, and doing so twice changes nothing more |
| `PercentEncoder.UndefinedIfCutOff` | include/boostconnect/utility/impl/percent_encoder.ipp:48-52 | Decoding runs past the end if and only if the text is a decodable one followed by `%` alone or with one character |
| `PercentEncoder.WellFormedDecodes` | include/boostconnect/utility/impl/percent_encoder.ipp:43-56 | Text whose every `%` is followed by two hexadecimal digits can be decoded |
| `PercentEncoder.EncodedIsWellFormed` | include/boostconnect/utility/impl/percent_encoder.ipp:25-41 | Encoded text is well-formed |
| `PercentEncoder.EncodedIsUpper` | include/boostconnect/utility/impl/percent_encoder.ipp:36 | In encoded text every `%` is followed by two upper-case hexadecimal digits |
| `PercentEncoder.EscapeWithoutDigits` | include/boostconnect/utility/impl/percent_encoder.ipp:50 | An escape without digits is not refused: `%zz` decodes to NUL |
| `PercentEncoder.EncodedAlphabet` | include/boostconnect/utility/impl/percent_encoder.ipp:30-37 | Encoded text is made of unreserved characters and `%` |
| `PercentEncoder.Encode` | include/boostconnect/utility/impl/percent_encoder.ipp:25-41 | The loop computes the encoding |
| `PercentEncoder.Decode` | include/boostconnect/utility/impl/percent_encoder.ipp:43-56 | The loop computes the decoding, or nothing when an escape is cut off (`UndefinedIfCutOff` says when) |
| `Radix.HexToDec` | include/boostconnect/utility/impl/radix.ipp:24-36 | The loop computes the value of the numeral, without overflow on the way whenever the final value fits |
| `Radix.ValueIsNumeral` | include/boostconnect/utility/impl/radix.ipp:30-33 | The value is the numeral that is written if and only if every character is a hexadecimal digit; otherwise no numeral is written and a value is returned all the same |
| `Radix.NonDigitsAreZeros` | include/boostconnect/utility/impl/radix.ipp:33 | Every other character counts as a zero |
| `Radix.NoNumeral` | include/boostconnect/utility/impl/radix.ipp:33 | The input `zz` has the value 0 and is no numeral |
| `Radix.ValueConcat` | include/boostconnect/utility/impl/radix.ipp:24-36 | The value of a concatenation is the first value times 16 to the length of the second, plus the second value |
| `Radix.SevenHexDigitsFit` | include/boostconnect/utility/impl/radix.ipp:26-34 | At most seven characters stay below 2^28 |
| `Radix.ValuePrefix` | include/boostconnect/utility/impl/radix.ipp:27-29 | The running value never exceeds the final one |
| `Radix.CaseDoesNotMatter` | include/boostconnect/utility/impl/radix.ipp:31-32 | Changing the case of any digits keeps the value |
| `Radix.TwoDigits` | include/boostconnect/utility/impl/percent_encoder.ipp:36 | The text of a byte is two upper-case hexadecimal digits with that byte as their value |
| `Radix.TwoDigitsUnique` | include/boostconnect/utility/impl/percent_encoder.ipp:36 | Two upper-case hexadecimal digits are the text of their value: there is no other |
| `Multipart.SplitBody` | include/boostconnect/content/impl/multipart.ipp:34-60 | Splitting a rendered body at its delimiters returns exactly its parts if and only if no part contains a delimiter |
| `Multipart.RenderingInjective` | include/boostconnect/content/impl/multipart.ipp:34-60 | Contents with the same type and body are the same tree: parts, headers and boundaries, nested ones included |
| `Multipart.ReadPart` | include/boostconnect/content/impl/multipart.ipp:43-52 | The text of one part reads as its header lines, then `Content-Type` with the type of its content, then its body |
| `Multipart.BodyReadsBack` | include/boostconnect/content/impl/multipart.ipp:41-54 | A clean body, split at CRLF, two hyphens and the boundary, has exactly the parts, and each reads as such a part |
| `Multipart.MarkUnique` | include/boostconnect/content/impl/multipart.ipp:32 | A printed content type determines media type and boundary |
| `MultipartContent.Content.GetBody` | include/boostconnect/content/impl/multipart.ipp:34-60 | A good cache or none: the body is a fresh rendering of the content as it is now, shared parts included, with every boundary below chosen and no chosen boundary changed; a cached body is returned as it is and nothing changes; afterwards the body is cached; the body of a clean content reads back as its parts |
| `MultipartContent.Content.GetContentType` | include/boostconnect/content/impl/multipart.ipp:29-33 | The type names the boundary the body has or will have, chosen now if it was not, and never replaced; the text is type, attributes and, for a multipart, the quoted boundary |
| `MultipartContent.Content.Generate` | include/boostconnect/content/impl/multipart.ipp:36-57 | Filling the cache: tree, cache and boundary agree afterwards |
| `MultipartContent.Content.RenderParts` | include/boostconnect/content/impl/multipart.ipp:41-53 | The outer loop renders the parts in order; a part that was rendered stays as it is even if later parts share contents with it |
| `MultipartContent.RenderPart` | include/boostconnect/content/impl/multipart.ipp:45-52 | One part: header lines, type, body; the type is still right after the body was rendered |
| `MultipartContent.HeaderLines` | include/boostconnect/content/impl/multipart.ipp:45-49 | The inner loop prints the header map in key order |
| `MultipartContent.Content.SetData` | include/boostconnect/content/impl/multipart.ipp:73-78 | New parts, which may share contents and are all that is below it now; type and boundary untouched, cache dropped, even a stale one, so that the content is valid again |
| `MultipartContent.Replay` | include/boostconnect/content/impl/multipart.ipp:29-78 | For any sequence of `get_body`, `get_content_type`, `set_data` and `set_multipart_type` on one content whose parts are not changed otherwise: every answer is the fresh rendering of the content as it is then, and each `set_data` leaves exactly its parts, with at most some boundaries chosen |
| `MultipartContent.Perform` | include/boostconnect/content/impl/multipart.ipp:29-78 | One call of such a sequence: the new tree in terms of the old one, and the answer; contents below stay sound |
| `MultipartContent.OneBoundary` | include/boostconnect/content/impl/multipart.ipp:31-37 | All types and bodies answered in such a sequence have the same boundary |
| `MultipartContent.BodyStays` | include/boostconnect/content/impl/multipart.ipp:36-59 | Once every boundary is chosen, every body answered before the next `set_data` is the same text, whatever happens to the type |
| `MultipartContent.RenderAround` | include/boostconnect/content/impl/multipart.ipp:34-60 | Render, replace the text of a part, render: the second answer is the first one, and wrong if and only if the text changed |
| `MultipartContent.ReplaceNested` | include/boostconnect/content/impl/multipart.ipp:73-78 | `set_data` on a part that is itself multipart: that part has the new parts, the others are what they were, and the content above is acyclic again, and valid if it had no cached body |
| `MultipartContent.RenderAfterNested` | include/boostconnect/content/impl/multipart.ipp:34-60 | `set_data` on such a part, then `get_body` on the whole: without a cached body the answer is the rendering as it is now; a cached one is answered, and wrong if and only if the whole has become another tree |
| `MultipartContent.StaleWhen` | include/boostconnect/content/impl/multipart.ipp:36-59 | When something below was changed through another reference after a body was cached, the cached body is wrong if and only if the content has become another tree |
| `MultipartContent.StaleByText` | include/boostconnect/content/impl/text.ipp:32-35 | When the text of a part is set after its parent cached its body, the cached body is wrong if and only if the text changed |
| `MultipartContent.GrownNow` | include/boostconnect/content/impl/multipart.ipp:31-37 | Rendering any content only fills in boundaries of every content that contains parts of it |
| `MultipartContent.StaysValid` | include/boostconnect/content/impl/multipart.ipp:36-57 | A content stays valid when contents it shares are rendered through another one |
| `MultipartContent.Content.SetText` | include/boostconnect/content/impl/text.ipp:32-35 | The body of text content is replaced |
| `MultipartContent.Content.SetMultipartType` | include/boostconnect/content/impl/multipart.ipp:68-71 | The type changes, the rendered body does not, and a cached body stays right |
| `MultipartContent.Content.SetAttribute` | include/boostconnect/content/impl/content_base.ipp:60-64 | The type changes, the rendered body does not, for any content |
| `MultipartContent.AttributesSplit` | include/boostconnect/content/impl/content_base.ipp:28-42 | The printed attributes, split at `; `, are `name=value` for each attribute |
| `MultipartContent.Content.RefreshBoundary` | include/boostconnect/content/impl/multipart.ipp:62-66 | The boundary is twenty hyphens and 12 to 61 letters and digits |
| `MultipartContent.Nonce` | include/boostconnect/content/impl/multipart.ipp:80-102 | 12 to 61 letters and digits |
| `MultipartContent.ChosenIsFinal` | include/boostconnect/content/impl/multipart.ipp:34-60 | Once every boundary is chosen no later rendering can change anything: type and body are final until new data is set |
| `MultipartContent.FillsTransitive` | include/boostconnect/content/impl/multipart.ipp:31-37 | Boundaries chosen by several calls in a row are one choice: none is ever replaced |
| `MultipartContent.GeneratedIsGood` | include/boostconnect/content/impl/multipart.ipp:62-66 | A generated boundary has none of the characters that make splitting ambiguous |
| `KnownTexts.DigitTable` | include/boostconnect/utility/impl/radix.ipp:31-32 | The sixteen digits and what each is worth, in both cases |
| `KnownTexts.Numerals` | include/boostconnect/session/impl/http_session.ipp:184-188 | Some printed and parsed numerals, written out |
| `KnownTexts.StandsForItself` | include/boostconnect/utility/impl/percent_encoder.ipp:30-37 | Exactly letters, digits and the four marks of RFC 3986 section 2.3 are encoded as themselves |
| `KnownTexts.PrintedEscape` | include/boostconnect/utility/impl/percent_encoder.ipp:36 | An escape, written out |
| `KnownTexts.PrintedResponse` | include/boostconnect/session/impl/http_session.ipp:180-206 | A printed response, letter by letter |
| `KnownTexts.PrintedRequest` | include/boostconnect/session/impl/http_session.ipp:218-239 | The text of a request that the parser is for, letter by letter |
| `KnownTexts.PrintedMaps` | include/boostconnect/utility/impl/syntax.ipp:48-73 | A printed map of one entry, in both styles, letter by letter |
| `KnownTexts.PrintedMultipart` | include/boostconnect/content/impl/multipart.ipp:34-60 | The type and body of a multipart with one part, letter by letter |

## Left out

- Socket wrappers, TLS, name resolution, connecting and `client.ipp`: thin calls into Boost.Asio and OpenSSL. The short-read code of TLS that the readers tolerate is therefore not an error code here.
- Socket errors other than the end of the stream, on the client side: the only error a modelled read reports is `eof`. Sessions take any error, as a completion that is not `ok`.
- Blocking: a sized read whose length wraps around waits for bytes that never come; here the finite stream turns it into a read to the end.
- The inside of Spirit, Karma, `lexical_cast` and `boost::format`: small specification functions in `Radix` and `Grammar` stand for them.
- The stream buffer's maximum size and the byte behind its contents: a terminating NUL is assumed.
- The cap on one read: Asio reads at most 64 KiB at a time into a stream buffer, while a segment has any length. The positive results cover all segmentations, the capped ones included; the failing inputs that come in one piece (`EndToEnd.HeaderSwallowed`, `ChunkedResponses.OnePieceCodes`, `EndToEnd.SurplusTaken`, `RequestReading.ReceivesFails`) arise only where what they read ahead fits in one read.
- Handlers with effects: chunk and request handlers are functions of what they are shown. The outcomes on malformed chunked payloads are classified for chunk handlers that let every chunk pass.
- Reusing a connection after a chunked response: the final CRLF stays in the stream, so nothing is claimed across responses.
- RequestReading.RequestRoundTrip: is about the first request of a session; `request_` is never cleared, so it fails for later ones (`RequestReading.SecondRequest`). The results over runs do cover later rounds.
- The five seconds of the read timer: a report may come at any time.
- MultipartContent.Nonce: any length and characters the generator can give; that its loop for the length ends at all is a matter of chance.
- MultipartContent.Content.GetBody: rendering a content without a cached body above a part whose own cached body is stale is not followed. `RenderAfterNested` supposes that no other part contains the changed one.
- Attributes of a content are kept as the text that `content_base` prints for them.
- RFC 2046's limit of 70 characters on a boundary does not hold: up to 81 are possible.
- Radix.HexToDec: supposes a value within `int`; beyond it the original's arithmetic is undefined. The only caller passes two digits.
- The other contents (`binary.ipp`, `urlencoded.ipp`, `multipart_mixed.ipp`, `multipart_form_data.ipp`), `error_code.ipp`, the examples and the build files: accessors and constructors with only easy facts.
