/**
 * The response writer of pihttp/internal/response: a state machine
 * (StatusLine, Headers, Body, Trailers) over a byte sink. A response is a
 * status line, a header block, and then either one plain body or a run of
 * chunks in the chunked transfer coding of section 7.1 of RFC 9112, ended
 * by the last chunk and a trailer section (section 7.1.2 of RFC 9112)
 * whose field names the Trailer field (section 6.6.2 of RFC 9110) declares.
 *
 * Each write is specified by a function from the writer's state and the
 * sink to the state, the sink and the result afterwards; the class Writer
 * is the object the source mutates, and each of its methods is proved to
 * reach exactly what its function computes. The reason phrase of a status
 * code is a table this model does not know, so it is a parameter.
 */
module PiResponse {
  import opened Wrappers
  import opened Text
  import H = Headers
  import S = Sink

  datatype WriterState = StateStatusLine | StateHeaders | StateBody | StateTrailers

  datatype WriteError =
    | WrongState(state: WriterState)  // the call is not allowed in this state
    | SinkFailed                      // the sink refused a write
    | NoTrailerHeader                 // WriteTrailers without a Trailer field
    | TrailerNotPresent(name: string) // a declared trailer name without a value

  /** The writer's state, the sink, the byte count returned, and the error returned. */
  datatype Outcome = Outcome(state: WriterState, port: S.Port, n: nat, err: Option<WriteError>)

  /** The error of a write the sink accepted or refused. */
  function SinkErr(ok: bool): Option<WriteError> {
    if ok then None else Some(SinkFailed)
  }

  /** A call made in the wrong state: nothing is written and nothing moves. */
  function Refused(st: WriterState, p: S.Port): Outcome {
    Outcome(st, p, 0, Some(WrongState(st)))
  }

  // ---------------------------------------------------------------------
  // What each write puts on the wire
  // ---------------------------------------------------------------------

  /** The status line: "HTTP/1.1 <code> <reason>" CRLF. */
  function StatusLine(code: int, reason: string): string {
    "HTTP/1.1 " + Itoa(code) + " " + reason + CRLF
  }

  /** The size line of a chunk: its length in lower-case hexadecimal, then CRLF. */
  function SizeLine(chunk: string): string {
    Hex(|chunk|) + CRLF
  }

  /** One chunk of the chunked transfer coding: the size line, the data, CRLF. */
  function ChunkFrame(chunk: string): string {
    SizeLine(chunk) + chunk + CRLF
  }

  /** The last chunk: a zero size and CRLF. */
  const LastChunk: string := "0" + CRLF

  /** The trailer field name Get looks up. */
  const TrailerKey: string := "Trailer"

  /** The same name as the header map stores it. */
  const TrailerField: string := "trailer"

  /** ValSeparator: how the names in the Trailer field are separated. */
  const ValSeparator: string := ", "

  // ---------------------------------------------------------------------
  // The writes
  // ---------------------------------------------------------------------

  /** WriteStatusLine: the state moves to Headers even when the sink fails (the move is deferred). */
  function StatusLineOutcome(st: WriterState, p: S.Port, code: int, reason: string): Outcome {
    if st != StateStatusLine then Refused(st, p)
    else
      var (p1, ok) := S.Put(p, StatusLine(code, reason));
      Outcome(StateHeaders, p1, 0, SinkErr(ok))
  }

  /** WriteHeaders: the field lines of the map, walked in `order`, then a blank line; the state moves to Body regardless. */
  function HeadersOutcome(st: WriterState, p: S.Port, m: H.HeaderMap, order: seq<string>): Outcome
    requires forall i :: 0 <= i < |order| ==> order[i] in m
  {
    if st != StateHeaders then Refused(st, p)
    else
      var (p1, ok) := S.Put(p, H.Block(m, order) + CRLF);
      Outcome(StateBody, p1, 0, SinkErr(ok))
  }

  /** WriteBody: the body verbatim; the state moves to Trailers regardless. */
  function BodyOutcome(st: WriterState, p: S.Port, body: string): Outcome {
    if st != StateBody then Refused(st, p)
    else
      var (p1, ok) := S.Put(p, body);
      Outcome(StateTrailers, p1, if ok then |body| else 0, SinkErr(ok))
  }

  /** WriteChunkedBody: three writes, stopping at the first the sink refuses; the count is of the bytes written. */
  function ChunkOutcome(st: WriterState, p: S.Port, chunk: string): Outcome {
    if st != StateBody then Refused(st, p)
    else
      var (p1, ok1) := S.Put(p, SizeLine(chunk));
      if !ok1 then Outcome(st, p1, 0, Some(SinkFailed))
      else
        var (p2, ok2) := S.Put(p1, chunk);
        if !ok2 then Outcome(st, p2, |SizeLine(chunk)|, Some(SinkFailed))
        else
          var (p3, ok3) := S.Put(p2, CRLF);
          if !ok3 then Outcome(st, p3, |SizeLine(chunk)| + |chunk|, Some(SinkFailed))
          else Outcome(st, p3, |ChunkFrame(chunk)|, None)
  }

  /** WriteChunkedBodyDone: the last chunk; the state moves to Trailers regardless. */
  function ChunkDoneOutcome(st: WriterState, p: S.Port): Outcome {
    if st != StateBody then Refused(st, p)
    else
      var (p1, ok) := S.Put(p, LastChunk);
      Outcome(StateTrailers, p1, if ok then |LastChunk| else 0, SinkErr(ok))
  }

  /** The trailer lines for `names`, in order, stopping at the first name without a value or the first refused write. */
  function EmitTrailers(p: S.Port, get: string -> Option<string>, names: seq<string>): (S.Port, Option<WriteError>)
    decreases |names|
  {
    if names == [] then (p, None)
    else
      match get(names[0])
      case None => (p, Some(TrailerNotPresent(names[0])))
      case Some(v) =>
        var (p1, ok) := S.Put(p, H.FieldLine(names[0], v));
        if !ok then (p1, Some(SinkFailed)) else EmitTrailers(p1, get, names[1..])
  }

  /** Get on the header map `m`, as a value. */
  function Getter(m: H.HeaderMap): string -> Option<string> {
    k => H.Lookup(m, k)
  }

  /** The trailer names declared by the Trailer field of `m`, if it has one (see DeclaredTrailersIsGet). */
  function DeclaredTrailers(m: H.HeaderMap): Option<seq<string>> {
    if TrailerField in m then Some(Split(m[TrailerField], ValSeparator)) else None
  }

  /** WriteTrailers: the declared trailers, then a blank line; the state never moves. */
  function TrailersOutcome(st: WriterState, p: S.Port, m: H.HeaderMap): Outcome {
    if st != StateTrailers then Refused(st, p)
    else
      match DeclaredTrailers(m)
      case None => Outcome(st, p, 0, Some(NoTrailerHeader))
      case Some(names) =>
        var (p1, e) := EmitTrailers(p, Getter(m), names);
        if e.Some? then Outcome(st, p1, 0, e)
        else
          var (p2, ok) := S.Put(p1, CRLF);
          Outcome(st, p2, 0, SinkErr(ok))
  }

  /** DefaultHeaders: a plain-text response of `bodyLen` bytes on a connection that closes afterwards. */
  function DefaultHeaders(bodyLen: int): (m: H.HeaderMap)
    ensures m == map["connection" := "close", "content-type" := "text/plain", "content-length" := Itoa(bodyLen)]
  {
    var m1 := H.Assigned(map[], "Connection", "close");
    var m2 := H.Assigned(m1, "Content-Type", "text/plain");
    H.KeyConnection();
    H.KeyContentType();
    H.KeyContentLength();
    ItoaTrimmed(bodyLen);
    H.Assigned(m2, "Content-Length", Itoa(bodyLen))
  }

  lemma KeyTrailer()
    ensures H.Keyf(TrailerKey) == TrailerField
  {
    H.KeyOfLiteral(TrailerKey, TrailerField);
  }

  /** The declared trailers are the value of Get("Trailer"), split at ValSeparator. */
  lemma DeclaredTrailersIsGet(m: H.HeaderMap)
    ensures DeclaredTrailers(m) ==
      match H.Lookup(m, TrailerKey)
      case None => None
      case Some(v) => Some(Split(v, ValSeparator))
  {
    KeyTrailer();
  }

  // ---------------------------------------------------------------------
  // Properties of the writes
  // ---------------------------------------------------------------------

  /**
   * Every write called outside the one state that allows it fails with the
   * state it was called in, writes nothing and leaves the state alone.
   */
  lemma WrongStateWritesNothing(st: WriterState, p: S.Port, code: int, reason: string, m: H.HeaderMap, order: seq<string>, data: string)
    requires forall i :: 0 <= i < |order| ==> order[i] in m
    ensures st != StateStatusLine ==> StatusLineOutcome(st, p, code, reason) == Outcome(st, p, 0, Some(WrongState(st)))
    ensures st != StateHeaders ==> HeadersOutcome(st, p, m, order) == Outcome(st, p, 0, Some(WrongState(st)))
    ensures st != StateBody ==> BodyOutcome(st, p, data) == Outcome(st, p, 0, Some(WrongState(st)))
    ensures st != StateBody ==> ChunkOutcome(st, p, data) == Outcome(st, p, 0, Some(WrongState(st)))
    ensures st != StateBody ==> ChunkDoneOutcome(st, p) == Outcome(st, p, 0, Some(WrongState(st)))
    ensures st != StateTrailers ==> TrailersOutcome(st, p, m) == Outcome(st, p, 0, Some(WrongState(st)))
  {
  }

  /** The position of a state in the only order the writer visits them. */
  function Rank(st: WriterState): nat {
    match st
    case StateStatusLine => 0
    case StateHeaders => 1
    case StateBody => 2
    case StateTrailers => 3
  }

  /**
   * Calls in the right state move the writer one state on, whether or not
   * the sink accepted the bytes, except that chunks keep it in Body and
   * trailers keep it in Trailers.
   */
  lemma StatesMoveForward(st: WriterState, p: S.Port, code: int, reason: string, m: H.HeaderMap, order: seq<string>, data: string)
    requires forall i :: 0 <= i < |order| ==> order[i] in m
    ensures st == StateStatusLine ==> StatusLineOutcome(st, p, code, reason).state == StateHeaders
    ensures st == StateHeaders ==> HeadersOutcome(st, p, m, order).state == StateBody
    ensures st == StateBody ==> BodyOutcome(st, p, data).state == StateTrailers
    ensures ChunkOutcome(st, p, data).state == st
    ensures st == StateBody ==> ChunkDoneOutcome(st, p).state == StateTrailers
    ensures TrailersOutcome(st, p, m).state == st
  {
  }

  /** What a healthy sink receives from the status line, the header block, a plain body, a chunk and the last chunk. */
  lemma WritesOnHealthySink(p: S.Port, code: int, reason: string, m: H.HeaderMap, order: seq<string>, data: string)
    requires p.budget == None
    requires forall i :: 0 <= i < |order| ==> order[i] in m
    ensures StatusLineOutcome(StateStatusLine, p, code, reason) ==
      Outcome(StateHeaders, S.Port(p.written + "HTTP/1.1 " + Itoa(code) + " " + reason + "\r\n", None), 0, None)
    ensures HeadersOutcome(StateHeaders, p, m, order) ==
      Outcome(StateBody, S.Port(p.written + H.Block(m, order) + "\r\n", None), 0, None)
    ensures BodyOutcome(StateBody, p, data) == Outcome(StateTrailers, S.Port(p.written + data, None), |data|, None)
    ensures ChunkOutcome(StateBody, p, data) ==
      Outcome(StateBody, S.Port(p.written + Hex(|data|) + "\r\n" + data + "\r\n", None), |Hex(|data|)| + |data| + 4, None)
    ensures ChunkDoneOutcome(StateBody, p) == Outcome(StateTrailers, S.Port(p.written + "0\r\n", None), 3, None)
  {
    assert p.written + SizeLine(data) + data + CRLF == p.written + Hex(|data|) + "\r\n" + data + "\r\n";
  }

  /** A sink that refuses every write leaves each allowed write with the sink error, and the deferred moves still happen. */
  lemma WritesOnDeadSink(p: S.Port, code: int, reason: string, m: H.HeaderMap, order: seq<string>, data: string)
    requires p.budget == Some(0)
    requires forall i :: 0 <= i < |order| ==> order[i] in m
    ensures StatusLineOutcome(StateStatusLine, p, code, reason) == Outcome(StateHeaders, p, 0, Some(SinkFailed))
    ensures HeadersOutcome(StateHeaders, p, m, order) == Outcome(StateBody, p, 0, Some(SinkFailed))
    ensures BodyOutcome(StateBody, p, data) == Outcome(StateTrailers, p, 0, Some(SinkFailed))
    ensures ChunkOutcome(StateBody, p, data) == Outcome(StateBody, p, 0, Some(SinkFailed))
    ensures ChunkDoneOutcome(StateBody, p) == Outcome(StateTrailers, p, 0, Some(SinkFailed))
  {
  }

  /** The chunks written one after another in Body. */
  function ChunksOutcome(p: S.Port, chunks: seq<string>): Outcome
    decreases |chunks|
  {
    if chunks == [] then Outcome(StateBody, p, 0, None)
    else
      var o := ChunkOutcome(StateBody, p, chunks[0]);
      if o.err.Some? then o else ChunksOutcome(o.port, chunks[1..])
  }

  /** The frames of the chunks, in order. */
  function Frames(chunks: seq<string>): string
    decreases |chunks|
  {
    if chunks == [] then "" else ChunkFrame(chunks[0]) + Frames(chunks[1..])
  }

  /** On a healthy sink, writing chunks one after another appends their frames in order and stays in Body. */
  lemma {:induction false} ChunksAppendFrames(p: S.Port, chunks: seq<string>)
    requires p.budget == None
    ensures var o := ChunksOutcome(p, chunks);
      o.err == None && o.state == StateBody && o.port == S.Port(p.written + Frames(chunks), None)
    decreases |chunks|
  {
    if chunks != [] {
      var c := chunks[0];
      var p1 := S.Port(p.written + ChunkFrame(c), None);
      ChunkOnHealthy(p, c);
      ChunksAppendFrames(p1, chunks[1..]);
      Regroup(p.written, ChunkFrame(c), Frames(chunks[1..]));
    }
  }

  lemma ChunkOnHealthy(p: S.Port, chunk: string)
    requires p.budget == None
    ensures ChunkOutcome(StateBody, p, chunk) == Outcome(StateBody, S.Port(p.written + ChunkFrame(chunk), None), |ChunkFrame(chunk)|, None)
  {
    assert p.written + SizeLine(chunk) + chunk + CRLF == p.written + ChunkFrame(chunk);
  }

  /** An illustration of ChunksAppendFrames: the writes "abc", "de" and the last chunk put exactly 3 CRLF abc CRLF 2 CRLF de CRLF 0 CRLF on the wire. */
  lemma ChunkedExample(p: S.Port)
    requires p.budget == None
    ensures var o1 := ChunkOutcome(StateBody, p, "abc");
      var o2 := ChunkOutcome(o1.state, o1.port, "de");
      var o3 := ChunkDoneOutcome(o2.state, o2.port);
      o3 == Outcome(StateTrailers, S.Port(p.written + "3\r\nabc\r\n2\r\nde\r\n0\r\n", None), 3, None)
  {
    assert Hex(3) == "3";
    assert Hex(2) == "2";
  }

  // ---------------------------------------------------------------------
  // Reading the chunked coding back
  // ---------------------------------------------------------------------

  /** What a reader of the chunked coding finds at the front of its input. */
  datatype Frame = Data(chunk: string, rest: string) | Last(after: string) | Malformed

  /**
   * One frame as a recipient parses it: a size line in lower-case
   * hexadecimal, then that many characters and CRLF, or the last chunk
   * (size 0), after which the rest is left over.
   */
  function NextFrame(s: string): (f: Frame)
    ensures f.Data? ==> |f.rest| < |s|
  {
    var idx := Index(s, CRLF);
    if idx < 0 then Malformed
    else
      match ParseNat(s[..idx], 16)
      case None => Malformed
      case Some(size) =>
        if size == 0 then Last(s[idx + 2..])
        else DataAt(s, idx + 2, size)
  }

  /** The data of a chunk of `size` characters starting at `start`, which CRLF must follow. */
  function DataAt(s: string, start: nat, size: nat): (f: Frame)
    requires 0 < size && start <= |s|
    ensures f.Data? ==> |f.rest| < |s|
  {
    if start + size + 2 > |s| then Malformed
    else if s[start + size..start + size + 2] != CRLF then Malformed
    else Data(s[start..start + size], s[start + size + 2..])
  }

  /** A reader for the chunked coding: the chunks up to the last chunk, and what follows it. */
  function DecodeChunks(s: string): Option<(seq<string>, string)>
    decreases |s|
  {
    match NextFrame(s)
    case Malformed => None
    case Last(after) => Some(([], after))
    case Data(c, rest) => Prepend(c, DecodeChunks(rest))
  }

  function Prepend(c: string, r: Option<(seq<string>, string)>): Option<(seq<string>, string)> {
    match r
    case None => None
    case Some((cs, rest)) => Some(([c] + cs, rest))
  }

  /** A numeral holds no CR, so no CRLF. */
  lemma NumeralHasNoCRLF(s: string, base: nat)
    requires 2 <= base <= 16 && AllDigits(s, base)
    ensures !Contains(s, CRLF)
  {
    forall j | 0 <= j <= |s|
      ensures !OccursAt(s, CRLF, j)
    {
      if j + 2 <= |s| {
        assert s[j..j + 2][0] == s[j];
        assert 0 <= DigitValue(s[j]);
      }
    }
  }

  /** The frame of a non-empty chunk is read back as that chunk, and the rest follows it. */
  lemma FrameRead(chunk: string, rest: string)
    requires chunk != ""
    ensures NextFrame(ChunkFrame(chunk) + rest) == Data(chunk, rest)
  {
    var h := Hex(|chunk|);
    var body := chunk + CRLF + rest;
    var s := ChunkFrame(chunk) + rest;
    assert s == h + (CRLF + body);
    SizeLineRead(h, body, |chunk|);
    FrameAt(s, |h|, |chunk|);
    assert s[|h| + 2..] == body;
    DataAtParts(s, |h| + 2, chunk, rest);
  }

  /** The data of a chunk, followed by CRLF, is read as that chunk with the rest after it. */
  lemma DataAtParts(s: string, start: nat, chunk: string, rest: string)
    requires start <= |s| && s[start..] == chunk + CRLF + rest && chunk != ""
    ensures DataAt(s, start, |chunk|) == Data(chunk, rest)
  {
    var n := |chunk|;
    var body := s[start..];
    assert body[..n] == chunk && body[n..n + 2] == CRLF && body[n + 2..] == rest;
    DropDrop(s, start, n);
    DropDrop(s, start, n + 2);
    assert s[start + n..start + n + 2] == CRLF;
    assert s[start..start + n] == chunk;
  }

  /** The size line of a frame: its first CRLF ends the numeral, which is read back as the size. */
  lemma SizeLineRead(h: string, body: string, n: nat)
    requires h == Hex(n)
    ensures Index(h + (CRLF + body), CRLF) == |h| && (h + (CRLF + body))[..|h|] == h && ParseNat(h, 16) == Some(n)
  {
    NumeralHasNoCRLF(h, 16);
    LineEnd(h, body);
    assert h + CRLF + body == h + (CRLF + body);
    FormatNatRoundTrip(n, 16);
  }

  /** A frame whose size line reads as n > 0: what follows the size line is read as n characters and CRLF. */
  lemma FrameAt(s: string, i: nat, n: nat)
    requires Index(s, CRLF) == i && ParseNat(s[..i], 16) == Some(n) && 0 < n
    ensures i + 2 <= |s| && NextFrame(s) == DataAt(s, i + 2, n)
  {
  }

  /** The last chunk is read as the end, and what follows it is left over. */
  lemma LastChunkDecodes(rest: string)
    ensures DecodeChunks(LastChunk + rest) == Some(([], rest))
  {
    var s := LastChunk + rest;
    assert "0" + CRLF + rest == s;
    NumeralHasNoCRLF("0", 16);
    LineEnd("0", rest);
    assert s[..1] == "0";
    assert ValueOf("0", 16) == 0 by { assert "0"[..0] == ""; }
    assert s[3..] == rest;
    assert NextFrame(s) == Last(rest);
  }

  /** A frame of a non-empty chunk is read as that chunk, and reading goes on after it. */
  lemma DecodeFrame(c: string, tail: string)
    requires c != ""
    ensures DecodeChunks(ChunkFrame(c) + tail) == Prepend(c, DecodeChunks(tail))
  {
    FrameRead(c, tail);
    DecodeStep(ChunkFrame(c) + tail, c, tail);
  }

  /** One frame of the reader: the chunk it holds goes in front of what the rest is read as. */
  lemma DecodeStep(s: string, c: string, rest: string)
    requires NextFrame(s) == Data(c, rest)
    ensures DecodeChunks(s) == Prepend(c, DecodeChunks(rest))
  {
  }

  lemma FramesFirst(chunks: seq<string>, rest: string)
    requires chunks != []
    ensures Frames(chunks) + LastChunk + rest == ChunkFrame(chunks[0]) + (Frames(chunks[1..]) + LastChunk + rest)
  {
  }

  lemma DecodeFrameThen(c: string, cs: seq<string>, rest: string, tail: string, s: string)
    requires c != "" && s == ChunkFrame(c) + tail && DecodeChunks(tail) == Some((cs, rest))
    ensures DecodeChunks(s) == Some(([c] + cs, rest))
  {
    DecodeFrame(c, tail);
  }

  /**
   * Round trip: the frames of non-empty chunks, then the last chunk, read
   * back as those chunks, and what follows is left over. (An empty chunk
   * is written as "0" CRLF CRLF, which a reader takes for the last chunk.)
   */
  lemma {:induction false} DecodeFrames(chunks: seq<string>, rest: string)
    requires forall i :: 0 <= i < |chunks| ==> chunks[i] != ""
    ensures DecodeChunks(Frames(chunks) + LastChunk + rest) == Some((chunks, rest))
    decreases |chunks|
  {
    if chunks == [] {
      assert Frames(chunks) + LastChunk + rest == LastChunk + rest;
      LastChunkDecodes(rest);
    } else {
      var c := chunks[0];
      var tail := Frames(chunks[1..]) + LastChunk + rest;
      DecodeFrames(chunks[1..], rest);
      FramesFirst(chunks, rest);
      DecodeFrameThen(c, chunks[1..], rest, tail, Frames(chunks) + LastChunk + rest);
      assert [c] + chunks[1..] == chunks;
    }
  }

  /** An empty chunk written in the middle of a body ends the body for a reader: what was written after it is left over. */
  lemma EmptyChunkEndsBody(before: seq<string>, after: string)
    requires forall i :: 0 <= i < |before| ==> before[i] != ""
    ensures DecodeChunks(Frames(before) + ChunkFrame("") + after) == Some((before, CRLF + after))
  {
    assert ChunkFrame("") == LastChunk + CRLF by {
      assert Hex(0) == "0";
    }
    assert Frames(before) + ChunkFrame("") + after == Frames(before) + LastChunk + (CRLF + after);
    DecodeFrames(before, CRLF + after);
  }

  // ---------------------------------------------------------------------
  // Trailers
  // ---------------------------------------------------------------------

  /** The trailer lines of the declared names, in the declared order, up to the first name without a value. */
  function TrailerLines(get: string -> Option<string>, names: seq<string>): string
    decreases |names|
  {
    if names == [] then ""
    else
      match get(names[0])
      case None => ""
      case Some(v) => H.FieldLine(names[0], v) + TrailerLines(get, names[1..])
  }

  /**
   * On a healthy sink the trailer lines come out in the declared order, up
   * to the first declared name that has no value (at index i); that name
   * is the error, and the lines before it have already been written.
   */
  lemma {:induction false} EmitTrailersInOrder(p: S.Port, get: string -> Option<string>, names: seq<string>, i: nat)
    requires p.budget == None
    requires i <= |names|
    requires forall j :: 0 <= j < i ==> get(names[j]).Some?
    requires i < |names| ==> get(names[i]).None?
    ensures EmitTrailers(p, get, names) ==
      (S.Port(p.written + TrailerLines(get, names), None), if i < |names| then Some(TrailerNotPresent(names[i])) else None)
    decreases |names|
  {
    if names == [] {
      assert p.written + "" == p.written;
    } else if i == 0 {
      assert p.written + "" == p.written;
    } else {
      var v := get(names[0]).value;
      var f := H.FieldLine(names[0], v);
      var p1 := S.Port(p.written + f, None);
      var rest := names[1..];
      EmitStep(p, get, names, v);
      assert forall j :: 0 <= j < i - 1 ==> rest[j] == names[j + 1];
      EmitTrailersInOrder(p1, get, rest, i - 1);
      Regroup(p.written, f, TrailerLines(get, rest));
      if i < |names| {
        assert rest[i - 1] == names[i];
      }
    }
  }

  lemma EmitStep(p: S.Port, get: string -> Option<string>, names: seq<string>, v: string)
    requires p.budget == None && names != [] && get(names[0]) == Some(v)
    ensures EmitTrailers(p, get, names) == EmitTrailers(S.Port(p.written + H.FieldLine(names[0], v), None), get, names[1..])
    ensures TrailerLines(get, names) == H.FieldLine(names[0], v) + TrailerLines(get, names[1..])
  {
  }

  /** WriteTrailers on a healthy sink: every declared trailer line in order, then a blank line. */
  lemma {:induction false} TrailersWritten(p: S.Port, m: H.HeaderMap, names: seq<string>)
    requires p.budget == None
    requires DeclaredTrailers(m) == Some(names)
    requires forall j :: 0 <= j < |names| ==> Getter(m)(names[j]).Some?
    ensures TrailersOutcome(StateTrailers, p, m) ==
      Outcome(StateTrailers, S.Port(p.written + TrailerLines(Getter(m), names) + CRLF, None), 0, None)
  {
    EmitTrailersInOrder(p, Getter(m), names, |names|);
  }

  /** WriteTrailers without a Trailer field fails and writes nothing. */
  lemma TrailersNeedDeclaration(p: S.Port, m: H.HeaderMap)
    requires H.Lookup(m, TrailerKey).None?
    ensures TrailersOutcome(StateTrailers, p, m) == Outcome(StateTrailers, p, 0, Some(NoTrailerHeader))
  {
    DeclaredTrailersIsGet(m);
  }

  /** A declared name without a value fails, after the lines of the names declared before it. */
  lemma {:induction false} TrailerMissing(p: S.Port, m: H.HeaderMap, names: seq<string>, i: nat)
    requires p.budget == None
    requires DeclaredTrailers(m) == Some(names)
    requires i < |names|
    requires forall j :: 0 <= j < i ==> Getter(m)(names[j]).Some?
    requires Getter(m)(names[i]).None?
    ensures TrailersOutcome(StateTrailers, p, m) ==
      Outcome(StateTrailers, S.Port(p.written + TrailerLines(Getter(m), names), None), 0, Some(TrailerNotPresent(names[i])))
  {
    EmitTrailersInOrder(p, Getter(m), names, i);
  }

  // ---------------------------------------------------------------------
  // Whole responses
  // ---------------------------------------------------------------------

  /**
   * A plain response on a healthy sink: the status line, the header block
   * and the body, in that order, and nothing else; the writer ends in
   * Trailers.
   */
  lemma PlainResponse(code: int, reason: string, m: H.HeaderMap, order: seq<string>, body: string)
    requires forall i :: 0 <= i < |order| ==> order[i] in m
    ensures var o1 := StatusLineOutcome(StateStatusLine, S.Healthy, code, reason);
      var o2 := HeadersOutcome(o1.state, o1.port, m, order);
      var o3 := BodyOutcome(o2.state, o2.port, body);
      o3 == Outcome(StateTrailers, S.Port(StatusLine(code, reason) + H.Block(m, order) + CRLF + body, None), |body|, None)
  {
    var line := StatusLine(code, reason);
    var head := line + (H.Block(m, order) + CRLF);
    S.PutHealthy(S.Healthy, line);
    assert "" + line == line;
    var p1 := S.Port(line, None);
    assert StatusLineOutcome(StateStatusLine, S.Healthy, code, reason) == Outcome(StateHeaders, p1, 0, None);
    S.PutHealthy(p1, H.Block(m, order) + CRLF);
    var p2 := S.Port(head, None);
    assert HeadersOutcome(StateHeaders, p1, m, order) == Outcome(StateBody, p2, 0, None);
    S.PutHealthy(p2, body);
    assert head + body == line + H.Block(m, order) + CRLF + body;
  }

  /**
   * A chunked response on a healthy sink: the status line, the header
   * block, the frame of every chunk in order, the last chunk and the
   * trailer section.
   */
  lemma ChunkedResponse(code: int, reason: string, m: H.HeaderMap, order: seq<string>, chunks: seq<string>, names: seq<string>)
    requires forall i :: 0 <= i < |order| ==> order[i] in m
    requires DeclaredTrailers(m) == Some(names)
    requires forall j :: 0 <= j < |names| ==> Getter(m)(names[j]).Some?
    ensures var o1 := StatusLineOutcome(StateStatusLine, S.Healthy, code, reason);
      var o2 := HeadersOutcome(o1.state, o1.port, m, order);
      var o3 := ChunksOutcome(o2.port, chunks);
      var o4 := ChunkDoneOutcome(o3.state, o3.port);
      var o5 := TrailersOutcome(o4.state, o4.port, m);
      o5 == Outcome(StateTrailers, S.Port(
        StatusLine(code, reason) + H.Block(m, order) + CRLF + Frames(chunks) + LastChunk
          + TrailerLines(Getter(m), names) + CRLF, None), 0, None)
  {
    ChunkedHead(code, reason, m, order, chunks);
    var p4 := S.Port(StatusLine(code, reason) + H.Block(m, order) + CRLF + Frames(chunks) + LastChunk, None);
    TrailersWritten(p4, m, names);
  }

  /** A chunked response up to its trailer section. */
  lemma ChunkedHead(code: int, reason: string, m: H.HeaderMap, order: seq<string>, chunks: seq<string>)
    requires forall i :: 0 <= i < |order| ==> order[i] in m
    ensures var o1 := StatusLineOutcome(StateStatusLine, S.Healthy, code, reason);
      var o2 := HeadersOutcome(o1.state, o1.port, m, order);
      var o3 := ChunksOutcome(o2.port, chunks);
      var o4 := ChunkDoneOutcome(o3.state, o3.port);
      o4 == Outcome(StateTrailers, S.Port(StatusLine(code, reason) + H.Block(m, order) + CRLF + Frames(chunks) + LastChunk, None), |LastChunk|, None)
  {
    var p1 := S.Port(StatusLine(code, reason), None);
    assert StatusLineOutcome(StateStatusLine, S.Healthy, code, reason) == Outcome(StateHeaders, p1, 0, None);
    var head := StatusLine(code, reason) + H.Block(m, order) + CRLF;
    var p2 := S.Port(head, None);
    assert HeadersOutcome(StateHeaders, p1, m, order) == Outcome(StateBody, p2, 0, None);
    ChunksAppendFrames(p2, chunks);
  }

  /** EmitTrailers from the i-th name on: that name's line, then the rest. */
  lemma EmitAt(p: S.Port, get: string -> Option<string>, names: seq<string>, i: nat)
    requires i < |names|
    ensures EmitTrailers(p, get, names[i..]) ==
      match get(names[i])
      case None => (p, Some(TrailerNotPresent(names[i])))
      case Some(v) =>
        if !S.Accepting(p) then (p, Some(SinkFailed))
        else EmitTrailers(S.Put(p, H.FieldLine(names[i], v)).0, get, names[i + 1..])
  {
    assert names[i..][1..] == names[i + 1..];
  }

  /** TrailersOutcome once the trailer lines have been emitted with result `r`. */
  lemma TrailersEnd(p: S.Port, m: H.HeaderMap, names: seq<string>, r: (S.Port, Option<WriteError>))
    requires DeclaredTrailers(m) == Some(names) && EmitTrailers(p, Getter(m), names) == r
    ensures r.1.Some? ==> TrailersOutcome(StateTrailers, p, m) == Outcome(StateTrailers, r.0, 0, r.1)
    ensures r.1.None? ==>
      TrailersOutcome(StateTrailers, p, m) == Outcome(StateTrailers, S.Put(r.0, CRLF).0, 0, SinkErr(S.Put(r.0, CRLF).1))
  {
  }

  // ---------------------------------------------------------------------
  // The object the source mutates
  // ---------------------------------------------------------------------

  class Writer {
    var state: WriterState
    const writer: S.Sink

    /** NewWriter. */
    constructor (w: S.Sink)
      ensures state == StateStatusLine && writer == w
    {
      writer := w;
      state := StateStatusLine;
    }

    method WriteStatusLine(statusCode: int, reasonPhrase: int -> string) returns (err: Option<WriteError>)
      modifies this, writer
      ensures Outcome(state, writer.Model(), 0, err) ==
        StatusLineOutcome(old(state), old(writer.Model()), statusCode, reasonPhrase(statusCode))
    {
      if state != StateStatusLine {
        return Some(WrongState(state));
      }
      var statusLine := "HTTP/1.1 " + Itoa(statusCode) + " " + reasonPhrase(statusCode) + CRLF;
      var _, ok := writer.Write(statusLine);
      state := StateHeaders;
      if !ok {
        return Some(SinkFailed);
      }
      return None;
    }

    /** The field lines are written in the order the map is walked, which the caller does not choose. */
    method WriteHeaders(headers: H.HeaderMap) returns (err: Option<WriteError>, ghost order: seq<string>)
      modifies this, writer
      ensures H.Enumerates(order, headers.Keys)
      ensures Outcome(state, writer.Model(), 0, err) ==
        HeadersOutcome(old(state), old(writer.Model()), headers, order)
    {
      order := [];
      if state != StateHeaders {
        err := Some(WrongState(state));
        H.EnumerationExists(headers.Keys);
        order :| H.Enumerates(order, headers.Keys);
        return;
      }
      var fieldLines;
      fieldLines, order := H.SerializeFields(headers);
      fieldLines := fieldLines + CRLF;
      var _, ok := writer.Write(fieldLines);
      state := StateBody;
      if !ok {
        return Some(SinkFailed), order;
      }
      return None, order;
    }

    method WriteBody(body: string) returns (n: nat, err: Option<WriteError>)
      modifies this, writer
      ensures Outcome(state, writer.Model(), n, err) == BodyOutcome(old(state), old(writer.Model()), body)
    {
      if state != StateBody {
        return 0, Some(WrongState(state));
      }
      var k, ok := writer.Write(body);
      state := StateTrailers;
      return k, SinkErr(ok);
    }

    method WriteChunkedBody(chunk: string) returns (n: nat, err: Option<WriteError>)
      modifies writer
      ensures Outcome(state, writer.Model(), n, err) == ChunkOutcome(state, old(writer.Model()), chunk)
    {
      if state != StateBody {
        return 0, Some(WrongState(state));
      }
      var chunkSize := |chunk|;
      var numberTotal := 0;
      var numberBytes, ok := writer.Write(Hex(chunkSize) + CRLF);
      if !ok {
        return numberTotal, Some(SinkFailed);
      }
      numberTotal := numberTotal + numberBytes;
      numberBytes, ok := writer.Write(chunk);
      if !ok {
        return numberTotal, Some(SinkFailed);
      }
      numberTotal := numberTotal + numberBytes;
      numberBytes, ok := writer.Write(CRLF);
      if !ok {
        return numberTotal, Some(SinkFailed);
      }
      numberTotal := numberTotal + numberBytes;
      return numberTotal, None;
    }

    method WriteChunkedBodyDone() returns (n: nat, err: Option<WriteError>)
      modifies this, writer
      ensures Outcome(state, writer.Model(), n, err) == ChunkDoneOutcome(old(state), old(writer.Model()))
    {
      if state != StateBody {
        return 0, Some(WrongState(state));
      }
      var k, ok := writer.Write(Itoa(0) + CRLF);
      state := StateTrailers;
      return k, SinkErr(ok);
    }

    /** The loop of WriteTrailers: one trailer line per declared name, up to the first that fails. */
    method EmitDeclared(header: H.HeaderMap, trailerNames: seq<string>) returns (err: Option<WriteError>)
      modifies writer
      ensures (writer.Model(), err) == EmitTrailers(old(writer.Model()), Getter(header), trailerNames)
    {
      ghost var p0 := writer.Model();
      ghost var get := Getter(header);
      for i := 0 to |trailerNames|
        invariant EmitTrailers(p0, get, trailerNames) == EmitTrailers(writer.Model(), get, trailerNames[i..])
      {
        EmitAt(writer.Model(), get, trailerNames, i);
        var tName := trailerNames[i];
        var tVal := H.Lookup(header, tName);
        assert get(tName) == tVal;
        if tVal.None? {
          return Some(TrailerNotPresent(tName));
        }
        var _, ok := writer.Write(tName + ": " + tVal.value + CRLF);
        if !ok {
          return Some(SinkFailed);
        }
      }
      assert trailerNames[|trailerNames|..] == [];
      return None;
    }

    method WriteTrailers(header: H.HeaderMap) returns (err: Option<WriteError>)
      modifies writer
      ensures Outcome(state, writer.Model(), 0, err) == TrailersOutcome(state, old(writer.Model()), header)
    {
      if state != StateTrailers {
        return Some(WrongState(state));
      }
      var trailers := H.Lookup(header, TrailerKey);
      if trailers.None? {
        DeclaredTrailersIsGet(header);
        return Some(NoTrailerHeader);
      }
      var trailerNames := Split(trailers.value, ValSeparator);
      DeclaredTrailersIsGet(header);
      ghost var p0 := writer.Model();
      err := EmitDeclared(header, trailerNames);
      TrailersEnd(p0, header, trailerNames, (writer.Model(), err));
      if err.Some? {
        return err;
      }
      var _, ok := writer.Write(CRLF);
      return SinkErr(ok);
    }
  }
}
