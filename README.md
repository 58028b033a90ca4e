# pinet HTTP/1.1 message layer in Dafny

This project models the hand-written HTTP/1.1 message layer of the Go
repository gpbPiazza/pinet and proves properties of the model. The layer has
three cooperating parts, plus an older one-shot prototype.

- **Header multimap** (module `Headers`, `headers.dfy`). This is the leaf the
  other parts use. It maps a field name, trimmed and lower-cased, to one
  value. A repeated `Add` joins the values with ", ". `Parse` consumes at
  most one CRLF-terminated field line. It checks the name against the token
  characters of section 5.6.2 of RFC 9110, plus space. The pure functions
  `Added`, `Assigned`, `Removed`, `Lookup` and `ParseField` are the
  specification. The class `Headers.Headers` is the map the source updates
  in place, and each of its methods is proved to leave exactly the map its
  function computes.
- **Incremental request parsers.** Two snapshots are modelled, each as a
  state machine fed from a growing buffer:
  - `PiRequest` (`pi_request.dfy`) models the current one: request line,
    field lines and a Content-Length body.
  - `TcpRequest` (`tcp_request.dfy`) models the earlier one: request line and
    field lines only, and the end of input counts as success.
  - Their request-line validators are the same text in both snapshots, so
    they are defined once, in `RequestLine` (`request_line.dfy`).
  - The byte source is a sequence of reads, each some bytes or an error
    (`Source`). The end of the sequence is io.EOF.
  - `PiRequestChunking` (`pi_request_chunking.dfy`) proves that for a
    well-formed request, the result does not depend on how the bytes are
    split into reads.
- **Response writers.** The sink is `Sink.Sink`: the bytes written so far,
  plus how many more writes it accepts.
  - `PiResponse` (`pi_response.dfy`) is the four-state writer: plain body,
    chunked transfer coding (section 7.1 of RFC 9112) and a trailer section.
  - `TcpResponse` (`tcp_response.dfy`) is the three-state writer. It forces
    "Connection: close" into the caller's map and requires Content-Length.
  - `TcpHandler` (`tcp_handler.dfy`) is `HandlerError`, which writes an error
    through the three-state writer.
- **Legacy prototype.** These are one-shot split-based parsers and a
  serialiser. Each source file is its own module, because their names clash:
  - `PiLegacyParseRequest` models pihttp/parse_request.go.
  - `PiLegacyRequestLine` models pihttp/request_line.go.
  - `PiLegacyServer` models the parse functions of pihttp/server.go.
  - `PiLegacyResponse` models `Response.encode`.
  - `PiLegacyHeader` is their shared map of name to values.

  Where the source stops the program (`log.Fatal`) or panics (an index out
  of range), the model states the condition as a precondition.

`Text` holds the Go `strings`, `bytes` and `strconv` operations the source
calls: Index, Split, Cut, TrimSpace, TrimPrefix/TrimSuffix, ToLower, Itoa
and Atoi. Its characters stand for octets, so its white space and letters
are those of ASCII. `Wrappers` holds `Option` and `Result`.

Where the source and its tests disagree, the model follows the code.
`Parse` on an empty line returns 2 consumed bytes (the CRLF), although the
header test expects 0. The request parser relies on the 2.

## Model

| member | source | states |
|---|---|---|
| Headers.Keyf | httpfromtcp/internal/headers/headers.go:35-37 | the stored form of a key has no surrounding white space and no upper-case letter |
| Headers.KeyfIdempotent | httpfromtcp/internal/headers/headers.go:35-37 | normalising a stored key again changes nothing |
| Headers.LookupIgnoresCaseAndSpace | httpfromtcp/internal/headers/headers.go:29-37 | Get ignores the case of the key and the white space around it |
| Headers.LookupAdded | httpfromtcp/internal/headers/headers.go:42-52 | Add makes the key hold the trimmed value, or the old value, ", " and the trimmed value; every other key is unchanged and stored keys stay normalised |
| Headers.AddedTrimsValue | httpfromtcp/internal/headers/headers.go:42-52 | adding " v" and adding v store the same value, because Add trims it |
| Headers.LookupAssigned | httpfromtcp/internal/headers/headers.go:58-68 | Set makes the key hold exactly the trimmed value; every other key is unchanged |
| Headers.LookupRemoved | httpfromtcp/internal/headers/headers.go:54-56 | Delete makes every spelling of the key absent; every other key is unchanged |
| Headers.AddAllJoinsInOrder | httpfromtcp/internal/headers/headers.go:42-52 | after a run of Adds, a key holds every value given for it, in the order given, joined with ", " |
| Headers.CheckKey | httpfromtcp/internal/headers/headers.go:107-136 | a key passes exactly when it does not end in a space and every character is a letter, a digit or an allowed special character |
| Headers.CheckKeyReports | httpfromtcp/internal/headers/headers.go:110-134 | a trailing space is reported as such; otherwise a character outside the allowed set is reported as invalid |
| Headers.ValidateKey | httpfromtcp/internal/headers/headers.go:107-136 | the loop with its hasInvalidChar flag returns the verdict of CheckKey |
| Headers.WellFormedKeyAccepted | httpfromtcp/internal/headers/headers.go:107-136 | every name without a trailing space whose characters are all allowed, in any case, passes the key check and holds no colon |
| Headers.ParseLine | httpfromtcp/internal/headers/headers.go:83-104 | an empty line ends the block with 2 bytes consumed; an error leaves the map and consumes nothing; success consumes the line and its CRLF |
| Headers.ParseLineAdds | httpfromtcp/internal/headers/headers.go:88-104 | the line splits at its first ':', later colons stay in the value, and the pair is added |
| Headers.ParseLineMissingSeparator | httpfromtcp/internal/headers/headers.go:88-91 | a line is refused for a missing separator exactly when it is not empty and holds no colon |
| Headers.ParseLineOfField | httpfromtcp/internal/headers/headers.go:83-104 | the text "key: value" of a well-formed key and value adds that pair and reports its length plus 2 |
| Headers.ParseFieldConsumesOneLine | httpfromtcp/internal/headers/headers.go:77-105 | Parse consumes nothing until a CRLF is there, then at most one line up to its first CRLF; it is done only on an empty line, and a failure changes nothing |
| Headers.ParseFieldFirstLine | httpfromtcp/internal/headers/headers.go:77-105 | only the first line counts; the bytes after its CRLF are ignored |
| Headers.ParseFieldPartial | httpfromtcp/internal/headers/headers.go:78-81 | a proper prefix of a line gives (0, false, no error) and leaves the map as it was |
| Headers.ParseFieldLineRoundTrip | httpfromtcp/internal/headers/headers.go:77-105 | the line "key: value" CRLF written for a well-formed key and value parses back to Add of that key and value, consuming the whole line |
| Headers.SerializeFields | httpfromtcp/internal/response/response.go:72-79 | the loop over a map emits one "key: value" CRLF line per entry, in some order listing every key once |
| Headers.Headers.constructor | httpfromtcp/internal/headers/headers.go:23-25 | a new map is empty |
| Headers.Headers.Add | httpfromtcp/internal/headers/headers.go:42-52 | the map afterwards is Added of the map before |
| Headers.Headers.Delete | httpfromtcp/internal/headers/headers.go:54-56 | the map afterwards is Removed of the map before |
| Headers.Headers.Set | httpfromtcp/internal/headers/headers.go:58-68 | the map afterwards is Assigned of the map before, whether or not the key was present |
| Headers.Headers.Parse | httpfromtcp/internal/headers/headers.go:77-105 | the results and the map afterwards are those of ParseField on the map before |
| Headers.Headers.ParseText | httpfromtcp/internal/headers/headers.go:83-104 | the results and the map afterwards are those of ParseLine on the map before |
| RequestLine.IsAllCaps | pihttp/internal/request/request.go:252-262 | the loop returns true exactly when every character is an upper-case letter |
| RequestLine.CheckMethod | pihttp/internal/request/request.go:235-250 | a method passes exactly when it is one of AllMethods |
| RequestLine.CheckMethodReports | pihttp/internal/request/request.go:235-250 | a method that is not all capitals is reported as such; an all-capitals one outside AllMethods is reported as unsupported |
| RequestLine.ValidateMethod | pihttp/internal/request/request.go:235-250 | the loops return the verdict of CheckMethod |
| RequestLine.CheckVersion | pihttp/internal/request/request.go:264-278 | the version passes exactly when it has two '/' parts and is HTTP/1.1 |
| RequestLine.CheckVersionReports | pihttp/internal/request/request.go:264-278 | a version without exactly two '/' parts is reported as malformed; otherwise one other than HTTP/1.1 is reported as unsupported |
| RequestLine.ParseLineTextExactly | pihttp/internal/request/request.go:201-232 | a line is accepted exactly when it is "METHOD SP target SP HTTP/1.1" with a supported method and a target without spaces, and the result holds those parts with version "1.1" |
| RequestLine.ParseLineTextReports | pihttp/internal/request/request.go:204-222 | a line that does not split into three parts is refused as such; otherwise a method failure is reported before any version failure, each with the validator's own error |
| RequestLine.ParseLineTextComplete | pihttp/internal/request/request.go:201-232 | every acceptable request line, written out, is accepted as itself |
| RequestLine.ParseLineTextSound | pihttp/internal/request/request.go:201-232 | whatever is accepted is an acceptable request line and the line is its written form |
| RequestLine.AcceptedParts | pihttp/internal/request/request.go:204-228 | an accepted line splits into exactly three parts: a supported method, the target and HTTP/1.1 |
| RequestLine.ParseRequestLineFirstLine | httpfromtcp/internal/request/request.go:165-202 | "line CRLF rest" is judged by the line alone, and a success consumes the line and its CRLF |
| RequestLine.ParseRequestLineParsed | pihttp/internal/request/request.go:195-233 | a parsed line is acceptable, and the bytes consumed are exactly its text and the CRLF |
| RequestLine.ParseRequestLinePartial | pihttp/internal/request/request.go:196-199 | before the CRLF has arrived, nothing is consumed |
| RequestLine.ParseLine | httpfromtcp/internal/request/request.go:165-203 | the method returns what ParseRequestLine describes |
| PiRequest.LookupContentLength | pihttp/internal/request/request.go:318 | Get("content-length") reads the entry stored under that name |
| PiRequest.StepBody | pihttp/internal/request/request.go:284-311 | parseBody consumes at most the bytes given, leaves the request line, headers and state alone, and memoises a declared length |
| PiRequest.StepLine | pihttp/internal/request/request.go:156-167 | a failed or empty step changes nothing; a success stores an acceptable request line and moves to ParsingHeaders |
| PiRequest.StepHeaders | pihttp/internal/request/request.go:168-176 | a failed or empty step changes nothing; otherwise only the headers and the state change, and the state is ParsingHeaders or ParsingBody |
| PiRequest.StepInBody | pihttp/internal/request/request.go:177-185 | the request line and headers are kept; a failure keeps the state, and a success is in ParsingBody or Completed |
| PiRequest.StepSingleForward | pihttp/internal/request/request.go:154-191 | a step never moves the state back and moves it at most one place |
| PiRequest.StepAllForward | pihttp/internal/request/request.go:129-152 | parse never moves the state back |
| PiRequest.StepSingleDone | pihttp/internal/request/request.go:186-187 | a step in Completed is the done-state error and changes nothing |
| PiRequest.StepBodyWithoutLength | pihttp/internal/request/request.go:290-298 | without Content-Length the body step completes on no bytes or a leading LF, consuming none, and otherwise fails with content-length-required |
| PiRequest.StepBodyWithLength | pihttp/internal/request/request.go:300-310 | with Content-Length every buffered byte joins the body; too many is an error, exactly enough completes, fewer consumes them all and waits |
| PiRequest.StepBodyMemo | pihttp/internal/request/request.go:313-331 | the declared length is memoised on the first body step |
| PiRequest.StepBodyBadLength | pihttp/internal/request/request.go:323-326 | a Content-Length that is not an integer fails every body step and changes nothing |
| PiRequest.MemoTransparent | pihttp/internal/request/request.go:313-331 | under the parser's invariant, the memo never changes the length contentLength reports |
| PiRequest.FreshValid | pihttp/internal/request/request.go:82-86 | a new request meets the parser's invariant |
| PiRequest.ValidAfterLine | pihttp/internal/request/request.go:156-167 | a successful request-line step keeps the invariant |
| PiRequest.ValidAfterHeaders | pihttp/internal/request/request.go:168-176 | a successful header step keeps the invariant |
| PiRequest.ValidAfterBody | pihttp/internal/request/request.go:177-185 | a successful body step keeps the invariant |
| PiRequest.StepSingleValid | pihttp/internal/request/request.go:154-191 | every successful step keeps the invariant |
| PiRequest.StepAllValid | pihttp/internal/request/request.go:129-152 | a successful parse keeps the invariant |
| PiRequest.ReadAllValid | pihttp/internal/request/request.go:90-124 | the read loop, when it succeeds, returns a Completed request that meets the invariant |
| PiRequest.ParseFromReaderSound | pihttp/internal/request/request.go:81-127 | a returned request is complete, its request line is acceptable, and its body is exactly as long as the declared Content-Length, or empty without one |
| PiRequest.StepAllErrorKind | pihttp/internal/request/request.go:129-152 | parse fails only with the errors of its steps, never with an end-of-input or read error |
| PiRequest.ReadAllErrors | pihttp/internal/request/request.go:97-116 | end of input before the request is complete gives the incomplete-request error with the state reached, and only when no read failed; a failed read gives its own error, and only for the first failure |
| PiRequest.StepSingleStuck | pihttp/internal/request/request.go:154-191 | a step that consumes nothing and does not complete consumes nothing again when repeated |
| PiRequest.StepAllMaximal | pihttp/internal/request/request.go:129-152 | parse stops only when it cannot go on: unless it failed or completed, one more step on the unconsumed bytes consumes and changes nothing |
| PiRequest.StepAllGoesOn | pihttp/internal/request/request.go:132-149 | after a step that consumed bytes, parse goes on from where that step left off |
| PiRequest.Request.constructor | pihttp/internal/request/request.go:82-86 | a new request is in Initialized with empty request line, headers and body, and no memo |
| PiRequest.Request.ContentLength | pihttp/internal/request/request.go:313-331 | returns the memo if set, otherwise the declared length, which it memoises when it is an integer |
| PiRequest.Request.ParseBody | pihttp/internal/request/request.go:284-311 | the results and the request afterwards are those of StepBody |
| PiRequest.Request.ParseRequestLine | pihttp/internal/request/request.go:195-233 | stores the parsed line and reports its length, or changes nothing |
| PiRequest.Request.ParseSingle | pihttp/internal/request/request.go:154-191 | the results and the request afterwards are those of StepSingle |
| PiRequest.Request.Parse | pihttp/internal/request/request.go:129-152 | the loop's results and the request afterwards are those of StepAll |
| PiRequest.ReadRequest | pihttp/internal/request/request.go:81-127 | the read loop returns the request or error that ParseFromReader describes |
| PiRequestChunking.ParseAnyChunking | pihttp/internal/request/request.go:81-127 | a well-formed request parses to its line, fields and body however its bytes are split into reads, whatever follows them |
| PiRequestChunking.SameForEveryChunking | pihttp/internal/request/request.go:81-127 | two splittings of the same well-formed request give the same complete request |
| TcpRequest.StepLine | httpfromtcp/internal/request/request.go:135-146 | a failed or empty step changes nothing, and an empty one means no CRLF yet; a success stores an acceptable request line and moves to ParsingHeaders |
| TcpRequest.StepHeaders | httpfromtcp/internal/request/request.go:147-155 | a failed or empty step changes nothing; otherwise only the headers and state change, and the state is ParsingHeaders or Completed |
| TcpRequest.StepSingle | httpfromtcp/internal/request/request.go:133-161 | a failed step changes nothing; the done-state error occurs exactly in Completed |
| TcpRequest.StepSingleForward | httpfromtcp/internal/request/request.go:133-161 | a step never moves the state back and moves it at most one place |
| TcpRequest.BlankLineCompletes | httpfromtcp/internal/request/request.go:147-155 | the blank line completes the request, consumes 2 bytes, and no body is read |
| TcpRequest.StepSingleValid | httpfromtcp/internal/request/request.go:133-161 | every step keeps the parser's invariant |
| TcpRequest.ParseRunValid | httpfromtcp/internal/request/request.go:108-131 | parse keeps the invariant |
| TcpRequest.ReadAllValid | httpfromtcp/internal/request/request.go:68-106 | the read loop, when it succeeds, returns a request meeting the invariant |
| TcpRequest.ParseFromReaderSound | httpfromtcp/internal/request/request.go:68-106 | a returned request is untouched or has an acceptable request line |
| TcpRequest.EndOfInputIsSuccess | httpfromtcp/internal/request/request.go:84-88 | the end of input ends the loop without error, in any state |
| TcpRequest.ParseRunNotDone | httpfromtcp/internal/request/request.go:111-131 | parse never runs a step in Completed and never reports a read error |
| TcpRequest.ReadAllErrors | httpfromtcp/internal/request/request.go:84-96 | a failed read is returned with its own reason, unchanged; a failed parse is returned with its own error; a reported read error is the first failure in the source; the done-state error never escapes |
| TcpRequest.RunContinues | httpfromtcp/internal/request/request.go:111-128 | a step that consumes bytes and passes both early returns is followed by parse on the rest |
| TcpRequest.RunStops | httpfromtcp/internal/request/request.go:121-127 | parse returns after a step that consumed nothing or, as written, after the running total passes the slice length |
| TcpRequest.RunFails | httpfromtcp/internal/request/request.go:117-119 | a failed step ends parse with its error and no bytes |
| TcpRequest.RunCompleted | httpfromtcp/internal/request/request.go:111 | parse on a completed request runs no step and consumes nothing |
| TcpRequest.BlankLineRun | httpfromtcp/internal/request/request.go:108-131 | parse on the blank line alone completes the head and consumes it, as written or corrected |
| TcpRequest.AsWrittenStopsEarly | httpfromtcp/internal/request/request.go:121-123 | as written, parse stops after two field lines with the blank line buffered behind them, and a step on it would complete |
| TcpRequest.CorrectedCompletes | httpfromtcp/internal/request/request.go:108-131 | without that early return, the same bytes complete the head and are all consumed |
| TcpRequest.FieldStep | httpfromtcp/internal/request/request.go:147-155 | a well-formed field line adds its field and consumes the line |
| TcpRequest.ReadStopsShort | httpfromtcp/internal/request/request.go:68-131 | as written, a request line split over two 8-byte-buffer reads, then two field lines and the blank line in a third read (reads that fit the buffer) return an incomplete request without error |
| TcpRequest.ReadCompletesCorrected | httpfromtcp/internal/request/request.go:68-131 | with the corrected parse the same three reads, which fit the buffer, return the complete request |
| TcpRequest.ThreeReads | httpfromtcp/internal/request/request.go:76-103 | a request line over two reads, then a third read that parses without error: the reads fit the buffer and the loop ends with the request that parse on the third read left |
| TcpRequest.LineOverTwoReads | httpfromtcp/internal/request/request.go:76-103 | a full first read of the request line waits in the buffer, which is then doubled; the second read completes and consumes the line, leaving nothing buffered |
| TcpRequest.FirstBytesWait | httpfromtcp/internal/request/request.go:108-146 | the first 8 bytes of a request line hold no CRLF, so parse consumes nothing and changes nothing |
| TcpRequest.ReadContinues | httpfromtcp/internal/request/request.go:92-102 | after a read that parses, the loop goes on with the unconsumed bytes kept in front |
| TcpRequest.LineStep | httpfromtcp/internal/request/request.go:135-146 | an acceptable request line and its CRLF are stored and consumed |
| TcpRequest.NothingBuffered | httpfromtcp/internal/request/request.go:147-155 | waiting for field lines with nothing buffered consumes and changes nothing |
| TcpRequest.Request.constructor | httpfromtcp/internal/request/request.go:69-72 | a new request is in Initialized with empty request line and headers |
| TcpRequest.Request.ParseRequestLine | httpfromtcp/internal/request/request.go:165-203 | stores the parsed line and reports its length, or changes nothing |
| TcpRequest.Request.ParseSingle | httpfromtcp/internal/request/request.go:133-161 | the results and the request afterwards are those of StepSingle |
| TcpRequest.Request.Parse | httpfromtcp/internal/request/request.go:108-131 | the loop's results and the request afterwards are those of parse as written |
| TcpRequest.ReadRequest | httpfromtcp/internal/request/request.go:68-106 | the read loop returns the request or error that ParseFromReader describes |
| PiResponse.DefaultHeaders | pihttp/internal/response/response.go:37-45 | the map holds exactly connection=close, content-type=text/plain and content-length=the decimal length |
| PiResponse.KeyTrailer | pihttp/internal/response/response.go:168 | Get("Trailer") looks up the stored name "trailer" |
| PiResponse.DeclaredTrailersIsGet | pihttp/internal/response/response.go:168-173 | the declared trailer names are the value of the Trailer field split at ", " |
| PiResponse.WrongStateWritesNothing | pihttp/internal/response/response.go:47-166 | every write called outside its state fails with that state, writes nothing and leaves the state alone |
| PiResponse.StatesMoveForward | pihttp/internal/response/response.go:47-193 | status line, headers, body and done move one state on even when the sink fails; chunks and trailers keep the state |
| PiResponse.WritesOnHealthySink | pihttp/internal/response/response.go:47-161 | on a healthy sink each call appends exactly its bytes: the status line, the header block, the body, a chunk frame, the last chunk |
| PiResponse.WritesOnDeadSink | pihttp/internal/response/response.go:47-161 | on a refusing sink each call returns the sink error, and the deferred state moves still happen |
| PiResponse.ChunksAppendFrames | pihttp/internal/response/response.go:126-151 | chunks written one after another append their frames in order and stay in Body |
| PiResponse.ChunkOnHealthy | pihttp/internal/response/response.go:126-151 | one chunk appends hex size, CRLF, data, CRLF and returns that count |
| PiResponse.ChunkedExample | pihttp/internal/response/response.go:126-161 | an illustration of ChunksAppendFrames: "abc", "de", then done put exactly 3 CRLF abc CRLF 2 CRLF de CRLF 0 CRLF on the wire |
| PiResponse.FrameRead | pihttp/internal/response/response.go:126-151 | a recipient reads the frame of a non-empty chunk back as that chunk |
| PiResponse.LastChunkDecodes | pihttp/internal/response/response.go:153-161 | a recipient reads the last chunk as the end of the body |
| PiResponse.DecodeFrames | pihttp/internal/response/response.go:126-161 | the frames of non-empty chunks and the last chunk are read back as exactly those chunks |
| PiResponse.EmptyChunkEndsBody | pihttp/internal/response/response.go:126-151 | an empty chunk in the middle is read as the end of the body |
| PiResponse.EmitTrailersInOrder | pihttp/internal/response/response.go:175-185 | trailer lines come out in declared order, up to the first declared name without a value |
| PiResponse.TrailersWritten | pihttp/internal/response/response.go:163-193 | with every declared trailer present, each line in order and then a blank line are written |
| PiResponse.TrailersNeedDeclaration | pihttp/internal/response/response.go:168-171 | without a Trailer field, WriteTrailers fails and writes nothing |
| PiResponse.TrailerMissing | pihttp/internal/response/response.go:175-179 | a declared name without a value fails after the lines of the names before it are written |
| PiResponse.TrailersEnd | pihttp/internal/response/response.go:186-192 | the blank line follows the trailer lines only when they all succeeded |
| PiResponse.PlainResponse | pihttp/internal/response/response.go:47-101 | status line, header block and body, in that order and nothing else; the writer ends in Trailers |
| PiResponse.ChunkedResponse | pihttp/internal/response/response.go:47-193 | status line, header block, every chunk frame in order, the last chunk and the trailer section |
| PiResponse.Writer.constructor | pihttp/internal/response/response.go:30-35 | a new writer starts in StatusLine over the given sink |
| PiResponse.Writer.WriteStatusLine | pihttp/internal/response/response.go:47-64 | state, sink and error are those of StatusLineOutcome |
| PiResponse.Writer.WriteHeaders | pihttp/internal/response/response.go:66-91 | state, sink and error are those of HeadersOutcome for some order of the keys |
| PiResponse.Writer.WriteBody | pihttp/internal/response/response.go:93-101 | state, sink, count and error are those of BodyOutcome |
| PiResponse.Writer.WriteChunkedBody | pihttp/internal/response/response.go:126-151 | sink, count and error are those of ChunkOutcome, and the state is kept |
| PiResponse.Writer.WriteChunkedBodyDone | pihttp/internal/response/response.go:153-161 | state, sink, count and error are those of ChunkDoneOutcome |
| PiResponse.Writer.EmitDeclared | pihttp/internal/response/response.go:175-185 | the loop writes what EmitTrailers describes |
| PiResponse.Writer.WriteTrailers | pihttp/internal/response/response.go:163-193 | sink and error are those of TrailersOutcome, and the state is kept |
| TcpResponse.WrongStateWritesNothing | httpfromtcp/internal/response/response.go:36-99 | every write called outside its state fails and writes, moves and changes nothing, not even the caller's map |
| TcpResponse.StatusLineMovesOnlyOnSuccess | httpfromtcp/internal/response/response.go:36-53 | the writer moves to Headers exactly when the sink takes the status line |
| TcpResponse.HeadersMoveOnlyOnSuccess | httpfromtcp/internal/response/response.go:55-92 | the writer moves to Body exactly when Content-Length is present and the sink takes the block; the map holds connection: close either way |
| TcpResponse.BlockWritten | httpfromtcp/internal/response/response.go:72-91 | the header block and its blank line are written whole or not at all |
| TcpResponse.HeadersNeedContentLength | httpfromtcp/internal/response/response.go:60-65 | without Content-Length: an error, nothing written, still in Headers, only Connection set |
| TcpResponse.SentFields | httpfromtcp/internal/response/response.go:60-70 | the fields sent are connection: close, Content-Type as given or text/plain, and every other field unchanged |
| TcpResponse.StatesMoveForward | httpfromtcp/internal/response/response.go:36-99 | the state never moves back, at most one step per call, and WriteBody never moves it |
| TcpResponse.BodiesAppend | httpfromtcp/internal/response/response.go:94-99 | WriteBody may be called again, and the bodies follow one another |
| TcpResponse.WholeResponse | httpfromtcp/internal/response/response.go:36-99 | status line, header block of the fields sent and the body, in that order and nothing else |
| TcpResponse.HealthyStatusLine | httpfromtcp/internal/response/response.go:36-53 | on a healthy sink the status line is appended and the writer moves to Headers |
| TcpResponse.HealthyHeaders | httpfromtcp/internal/response/response.go:55-92 | on a healthy sink a map with Content-Length has its block appended and the writer moves to Body |
| TcpResponse.HealthyBody | httpfromtcp/internal/response/response.go:94-99 | on a healthy sink the body is appended and its length returned |
| TcpResponse.SetConnection | httpfromtcp/internal/response/response.go:60 | Set("Connection", "close") stores connection: close |
| TcpResponse.GetContentLength | httpfromtcp/internal/response/response.go:62 | Get("Content-Length") reads the stored content-length |
| TcpResponse.SetContentType | httpfromtcp/internal/response/response.go:67-70 | Get and Set of Content-Type work on the stored content-type |
| TcpResponse.PrepareFields | httpfromtcp/internal/response/response.go:60-70 | Connection is set first; Content-Type is defaulted only when Content-Length is present |
| TcpResponse.Writer.constructor | httpfromtcp/internal/response/response.go:29-34 | a new writer starts in StatusLine over the given sink |
| TcpResponse.Writer.WriteStatusLine | httpfromtcp/internal/response/response.go:36-53 | state, sink and error are those of StatusLineOutcome |
| TcpResponse.Writer.WriteHeaders | httpfromtcp/internal/response/response.go:55-92 | state, sink, error and the caller's map are those of HeadersOutcome for some order of the keys |
| TcpResponse.Writer.WriteBlock | httpfromtcp/internal/response/response.go:72-91 | state, sink and error are those of BlockOutcome |
| TcpResponse.Writer.WriteBody | httpfromtcp/internal/response/response.go:94-99 | sink, count and error are those of BodyOutcome, and the state is kept |
| TcpHandler.ErrorFields | httpfromtcp/internal/server/handler.go:25-26 | the new map holds only content-length, the decimal byte length of the message |
| TcpHandler.NewErrorHeaders | httpfromtcp/internal/server/handler.go:25-26 | the map built is a new object holding ErrorFields |
| TcpHandler.ContentLengthAdded | httpfromtcp/internal/server/handler.go:26 | Add("Content-Length", v) on a new map stores v under content-length |
| TcpHandler.SentErrorFields | httpfromtcp/internal/server/handler.go:25-28 | the writer sends exactly content-length, connection: close and content-type: text/plain |
| TcpHandler.HandlerError.Error | httpfromtcp/internal/server/handler.go:16-18 | the error text is empty |
| TcpHandler.HandlerError.Write | httpfromtcp/internal/server/handler.go:20-37 | writer state, sink and error are those of WriteOutcome for some order of the fields |
| TcpHandler.ErrorResponse | httpfromtcp/internal/server/handler.go:20-37 | on a new writer and healthy sink: status line, the three fields, the message, in that order |
| TcpHandler.FirstErrorWins | httpfromtcp/internal/server/handler.go:20-37 | the first failing step's error is returned and the later steps write nothing |
| TcpHandler.UsedWriterRefuses | httpfromtcp/internal/server/handler.go:21-23 | a writer past its status line refuses the error and writes nothing |
| PiLegacyHeader.Appended | pihttp/parse_request.go:72 | appending adds the value after the key's earlier values and leaves other keys alone |
| PiLegacyHeader.CollectInOrder | pihttp/parse_request.go:54-76 | a name is a key exactly when some pair carries it, and holds those pairs' values in order |
| PiLegacyHeader.NamedPairCollected | pihttp/server.go:123-140 | every pair's name is a key of the map |
| PiLegacyParseRequest.ParseRequestLine | pihttp/parse_request.go:28-52 | the path has no '?', is a prefix of the URI, and ends where the URI ends or at its first '?' |
| PiLegacyParseRequest.RequestLineFields | pihttp/parse_request.go:28-52 | "method SP uri SP version", with any extra fields, gives those three fields |
| PiLegacyParseRequest.FieldOf | pihttp/parse_request.go:58-70 | an empty line or one without ": " is skipped; otherwise the name has no ": " and the line is name, ": " and the value with one space trimmed |
| PiLegacyParseRequest.ParseHeaders | pihttp/parse_request.go:54-76 | the map holds every pair of the field lines, appended in line order |
| PiLegacyParseRequest.FieldOfLine | pihttp/parse_request.go:63-70 | "name: value" gives the name verbatim and the value less one leading space |
| PiLegacyParseRequest.FieldsOfLines | pihttp/parse_request.go:54-76 | pairs written as field lines are read back as the same pairs |
| PiLegacyParseRequest.SkippedLines | pihttp/parse_request.go:58-67 | empty lines and lines without ": " add nothing |
| PiLegacyParseRequest.ParseRequest | pihttp/parse_request.go:8-26 | the request is RequestOf: request line, headers of the middle pieces, raw query, last piece as body |
| PiLegacyParseRequest.MessageParts | pihttp/parse_request.go:8-26 | a message joined from line, field lines and body with no CRLF inside is read back as them |
| PiLegacyParseRequest.BodyWithLineBreak | pihttp/parse_request.go:9-24 | a body holding CRLF is cut: only the text after its last CRLF is the body |
| PiLegacyRequestLine.RawQueryBetween | pihttp/request_line.go:20-27 | the raw query is the text after the first '?', up to the next '?' or the end |
| PiLegacyRequestLine.RawQueryOf | pihttp/request_line.go:20-27 | for "path?query" followed by nothing or another '?', RawQuery is exactly query |
| PiLegacyServer.ParseRequestLine | pihttp/server.go:98-111 | the three fields hold no space |
| PiLegacyServer.RequestLineFields | pihttp/server.go:98-111 | "method SP uri SP version", with any extra fields, gives those three fields |
| PiLegacyServer.FieldOf | pihttp/server.go:128-134 | the name is the text before the first ':'; the value is the text up to the next ':' or the end, less one leading space when there is one |
| PiLegacyServer.ParseHeaders | pihttp/server.go:123-140 | the map holds every line's pair, appended in line order |
| PiLegacyServer.ValueStopsAtColon | pihttp/server.go:128-134 | a value with a ':' is cut there and loses a leading space only if it has one: "name: host:port" keeps host only, "name:v" gives v |
| PiLegacyServer.HostLosesPort | pihttp/server.go:118-134 | an illustration of ValueStopsAtColon: "Host: localhost:8080" gives Host = localhost |
| PiLegacyServer.NoLineBreak | pihttp/server.go:166-169 | a piece of the CRLF split passes the filter and has nothing trimmed |
| PiLegacyServer.ParseRequest | pihttp/server.go:149-186 | the request is RequestOf: every piece, the request line included, read as a field line |
| PiLegacyServer.TerminatedRequestsFail | pihttp/server.go:158-174 | no message ending in CRLF can be parsed |
| PiLegacyServer.RequestLineBecomesField | pihttp/server.go:160-174 | the request line's text before its first ':' becomes a header name |
| PiLegacyServer.CorrectedReadsHead | pihttp/server.go:158-174 | a head "line CRLF field lines CRLF CRLF" cannot be parsed as written, while the corrected parse (field lines after the request line, empty pieces skipped) reads back the request line and exactly the fields of the field lines |
| PiLegacyServer.HeadSplits | pihttp/server.go:158 | splitting such a head at CRLF gives its lines and two empty pieces |
| PiLegacyServer.NonEmptyDropsBlank | pihttp/server.go:165-170 | skipping empty pieces drops the two that end a head and keeps the non-empty lines, in order |
| PiLegacyResponse.Response.Encode | pihttp/response.go:22-94 | the output is Encoding for some order of the keys |
| PiLegacyResponse.WalkHeaders | pihttp/response.go:40-58 | one line per value of every key, in the walk's order; the flags say whether the two checked names are keys |
| PiLegacyResponse.WriteValues | pihttp/response.go:50-57 | one "key: value" CRLF line per value, in order |
| PiLegacyResponse.ValueLineIn | pihttp/response.go:50-57 | every value of a key has its line among that key's lines |
| PiLegacyResponse.HeaderLineIn | pihttp/response.go:42-58 | every value of every walked key has its line among the header lines |
| PiLegacyResponse.EveryValueSent | pihttp/response.go:42-58 | every value of every header is in the output, on its own line, with the key as stored |
| PiLegacyResponse.Framing | pihttp/response.go:30-93 | the output starts with the response line and ends with a blank line and the body |
| PiLegacyResponse.ContentTypeDuplicated | pihttp/response.go:42-77 | a caller's Content-Type is sent, and the default text/html line is sent too |
| PiLegacyResponse.DefaultTypeLast | pihttp/response.go:69-93 | without the misspelled name, the default Content-Type line comes right before the blank line |
| PiLegacyResponse.ContentLengthCaseSensitive | pihttp/response.go:46-67 | a length under another spelling is sent, and the default length line too |
| PiLegacyResponse.DefaultLengthSent | pihttp/response.go:60-67 | with no key exactly Content-Length, the default length line is sent |

## Left out

- Sockets, listeners, goroutines and the close flag are not modelled. The reader is a sequence of read outcomes; the end of the sequence is io.EOF.
- ParseFromReader's buffer is a string that keeps the unconsumed bytes in front of new ones; `ReadAll` does not bound a read by the buffer's free space, so it also accepts traces the source's reads cannot produce. `TcpRequest.ReadsFit` states that bound (8 bytes, doubled when full) and the Findings traces are proved to meet it.
- The writer's io.Writer is `Sink.Sink`. A write is taken whole or refused whole. Partial writes are not modelled.
- `unicode.IsLetter`, `IsUpper` and `IsNumber` are restricted to ASCII letters and digits.
- `strconv.Atoi` is an optional sign followed by decimal digits. Integers are unbounded, so overflow is not modelled.
- Go maps are walked in no fixed order. Serialised output is stated for a ghost `order` that lists every key exactly once.
- `reasonPhrase` and `statusText` are not part of this model. They are function parameters `int -> string`.
- `headers.Override` and `headers.ValSeparator` are not part of this model. The pihttp writer uses `Set` and ", " in their place.
- Error values carry a constructor, not the `fmt.Errorf` text.
- The source's unknown-request-state branch cannot be reached with an enumerated state, so it is not modelled.
- `log.Printf` calls are dropped. `log.Fatal`, and the index-out-of-range panics of the prototype, become preconditions: `HasThreeFields`, `CanParse`, a ':' in every server.go header line, and a '?' for `RawQuery`.
- The `strings.Builder` and `bytes.Buffer` writes cannot fail, so their `log.Fatalf` and error branches are not modelled.
- The `Handler` function type of handler.go is a declaration with no behaviour, so it is not modelled.
- `PiRequestChunking.ParseAnyChunking` covers only well-formed requests whose reads end with the last byte of the body. With trailing bytes the outcome depends on where the reads split them, and the lemmas do not claim it.
- `PiRequestChunking.ParseAnyChunking` and `PiRequestChunking.SameForEveryChunking` take field values without white space at either end, written after ": ". The parser trims a value, so other spellings also parse, but the lemmas do not claim them. Field names are any that the key check accepts, such as "Host".
- `Text.TrimSpace` removes ASCII white space only. Go's strings.TrimSpace also removes non-ASCII white space, such as U+0085 and U+00A0, from header values.
- `Text.ToLower` lower-cases ASCII letters only. Go's strings.ToLower also lower-cases non-ASCII capitals in header names.
- A Read that returns bytes together with io.EOF is modelled as the end of the sequence, and those bytes are not represented. Both read loops drop them: pihttp then reports an incomplete request unless it is already complete, and httpfromtcp stops. The model's end of input gives the same results.
- `PiRequest.ParseFromReaderSound` and `TcpRequest.ParseFromReaderSound` state properties of the result. The exact bytes consumed per read are stated by the step lemmas.
- `PiResponse.Writer.WriteChunkedBody` counts bytes only for writes the sink took whole.
- The legacy `Header` map is created with a capacity hint, which has no behaviour.

## Findings

| source | as written | input that shows it | evidently intended | confidence | as-written member | corrected member |
|---|---|---|---|---|---|---|
| httpfromtcp/internal/request/request.go:121-123 | parse returns as soon as the running total exceeds the length of the slice the last step was given | the request line split over two 8-byte reads (the second into the doubled buffer), then "k1: v1" CRLF "k2: v2" CRLF CRLF in a third read: parse stops before the blank line, the next read hits the end of input, and an incomplete request is returned without error | parse goes on until a step consumes nothing, so the blank line completes the request | not executed | TcpRequest.ReadStopsShort | TcpRequest.ReadCompletesCorrected |
| pihttp/server.go:158-174 | the loop walks every CRLF piece, the request line and the empty pieces included, and a piece without ':' panics in parseHeaders | "GET / HTTP/1.1" CRLF "Host: localhost:8080" CRLF CRLF, or any head that ends in CRLF: its last piece is empty and has no ':' | field lines are the non-empty pieces after the request line | not executed | PiLegacyServer.TerminatedRequestsFail | PiLegacyServer.CorrectedReadsHead |
