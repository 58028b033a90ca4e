/**
 * The response writer of httpfromtcp/internal/response: a state machine
 * (StatusLine, Headers, Body) over a byte sink. Unlike the four-state
 * writer of pihttp, it moves on only after a write the sink accepted, it
 * forces "Connection: close" into the caller's header map, it refuses a
 * header block without Content-Length, and it lets the body be written any
 * number of times.
 *
 * Each write is specified by a function from the writer's state, the sink
 * (and, for the header block, the caller's map) to what they are
 * afterwards; the class Writer is the object the source mutates, and each
 * of its methods is proved to reach exactly what its function computes.
 * The reason phrase of a status code is a table this model does not know,
 * so it is a parameter.
 */
module TcpResponse {
  import opened Wrappers
  import opened Text
  import H = Headers
  import S = Sink

  datatype WriterState = StateStatusLine | StateHeaders | StateBody

  datatype WriteError =
    | WrongState(state: WriterState)  // the call is not allowed in this state
    | SinkFailed                      // the sink refused a write
    | NoContentLength                 // WriteHeaders on a map without Content-Length

  /** The writer's state, the sink, the byte count returned, and the error returned. */
  datatype Outcome = Outcome(state: WriterState, port: S.Port, n: nat, err: Option<WriteError>)

  /** A call made in the wrong state: nothing is written and nothing moves. */
  function Refused(st: WriterState, p: S.Port): Outcome {
    Outcome(st, p, 0, Some(WrongState(st)))
  }

  /** The status line: "HTTP/1.1 <code> <reason>" CRLF. */
  function StatusLine(code: int, reason: string): string {
    "HTTP/1.1 " + Itoa(code) + " " + reason + CRLF
  }

  /** WriteStatusLine: the state moves to Headers only when the sink took the line. */
  function StatusLineOutcome(st: WriterState, p: S.Port, code: int, reason: string): Outcome {
    if st != StateStatusLine then Refused(st, p)
    else
      var (p1, ok) := S.Put(p, StatusLine(code, reason));
      if ok then Outcome(StateHeaders, p1, 0, None) else Outcome(st, p1, 0, Some(SinkFailed))
  }

  /** The stored names of the fields WriteHeaders looks at. */
  const ConnectionField: string := "connection"
  const ContentTypeField: string := "content-type"
  const ContentLengthField: string := "content-length"

  lemma DistinctFields()
    ensures ConnectionField != ContentTypeField && ConnectionField != ContentLengthField && ContentTypeField != ContentLengthField
  {
    assert |ConnectionField| == 10 && |ContentTypeField| == 12 && |ContentLengthField| == 14;
  }

  /** The caller's map once WriteHeaders has set "Connection: close" in it. */
  function Closing(m: H.HeaderMap): H.HeaderMap {
    m[ConnectionField := "close"]
  }

  /** The map whose fields WriteHeaders sends: Closing, with Content-Type text/plain unless one was given. */
  function Sent(m: H.HeaderMap): H.HeaderMap {
    var m1 := Closing(m);
    if ContentTypeField !in m1 then m1[ContentTypeField := "text/plain"] else m1
  }

  /**
   * WriteHeaders: what the writer, the sink and the caller's map are
   * afterwards. The field lines of the map are walked in `order`, then a
   * blank line follows; the state moves to Body only when the sink took
   * them.
   */
  function HeadersOutcome(st: WriterState, p: S.Port, m: H.HeaderMap, order: seq<string>): (Outcome, H.HeaderMap)
    requires forall i :: 0 <= i < |order| ==> order[i] in Sent(m)
  {
    if st != StateHeaders then (Refused(st, p), m)
    else if ContentLengthField !in Closing(m) then (Outcome(st, p, 0, Some(NoContentLength)), Closing(m))
    else (BlockOutcome(p, Sent(m), order), Sent(m))
  }

  /** The write of the header block of `fields` in WriteHeaders: the state moves to Body only when the sink took it. */
  function BlockOutcome(p: S.Port, fields: H.HeaderMap, order: seq<string>): Outcome
    requires forall i :: 0 <= i < |order| ==> order[i] in fields
  {
    var (p1, ok) := S.Put(p, H.Block(fields, order) + CRLF);
    if ok then Outcome(StateBody, p1, 0, None) else Outcome(StateHeaders, p1, 0, Some(SinkFailed))
  }

  /** WriteBody: the body verbatim; the state never moves. */
  function BodyOutcome(st: WriterState, p: S.Port, body: string): Outcome {
    if st != StateBody then Refused(st, p)
    else
      var (p1, ok) := S.Put(p, body);
      if ok then Outcome(st, p1, |body|, None) else Outcome(st, p1, 0, Some(SinkFailed))
  }

  // ---------------------------------------------------------------------
  // Properties of the writes
  // ---------------------------------------------------------------------

  /**
   * Every write called outside the one state that allows it fails with the
   * state it was called in, and writes, moves and changes nothing, not even
   * the caller's header map.
   */
  lemma WrongStateWritesNothing(st: WriterState, p: S.Port, code: int, reason: string, m: H.HeaderMap, order: seq<string>, body: string)
    requires forall i :: 0 <= i < |order| ==> order[i] in Sent(m)
    ensures st != StateStatusLine ==> StatusLineOutcome(st, p, code, reason) == Outcome(st, p, 0, Some(WrongState(st)))
    ensures st != StateHeaders ==> HeadersOutcome(st, p, m, order) == (Outcome(st, p, 0, Some(WrongState(st))), m)
    ensures st != StateBody ==> BodyOutcome(st, p, body) == Outcome(st, p, 0, Some(WrongState(st)))
  {
  }

  /** The position of a state in the only order the writer visits them. */
  function Rank(st: WriterState): nat {
    match st
    case StateStatusLine => 0
    case StateHeaders => 1
    case StateBody => 2
  }

  /**
   * The status line moves the writer on exactly when the sink accepts it;
   * a refused line leaves state and sink as they were.
   */
  lemma StatusLineMovesOnlyOnSuccess(p: S.Port, code: int, reason: string)
    ensures var o := StatusLineOutcome(StateStatusLine, p, code, reason);
      && (o.state == StateHeaders <==> S.Accepting(p))
      && (o.err.Some? ==> o.state == StateStatusLine && o.port == p)
      && (o.err.None? ==> o.port.written == p.written + StatusLine(code, reason))
  {
  }

  /**
   * The header block moves the writer on exactly when the map has a
   * Content-Length field and the sink accepts the block; otherwise state and
   * sink stay as they were. Either way the caller's map now holds
   * "connection: close".
   */
  lemma HeadersMoveOnlyOnSuccess(p: S.Port, m: H.HeaderMap, order: seq<string>)
    requires forall i :: 0 <= i < |order| ==> order[i] in Sent(m)
    ensures var (o, m1) := HeadersOutcome(StateHeaders, p, m, order);
      && (o.state == StateBody <==> ContentLengthField in m && S.Accepting(p))
      && (o.err.Some? ==> o.state == StateHeaders && o.port == p)
      && ConnectionField in m1 && m1[ConnectionField] == "close"
  {
    if ContentLengthField in m {
      BlockWritten(p, Sent(m), order);
    }
  }

  /** The block is written whole, or not at all. */
  lemma BlockWritten(p: S.Port, fields: H.HeaderMap, order: seq<string>)
    requires forall i :: 0 <= i < |order| ==> order[i] in fields
    ensures var o := BlockOutcome(p, fields, order);
      && (o.state == StateBody <==> S.Accepting(p))
      && (o.err.Some? ==> o.state == StateHeaders && o.port == p)
      && (o.err.None? ==> o.port.written == p.written + H.Block(fields, order) + CRLF)
  {
  }

  /** A map without Content-Length: an error, nothing written, the writer still in Headers, and only Connection set. */
  lemma HeadersNeedContentLength(p: S.Port, m: H.HeaderMap, order: seq<string>)
    requires forall i :: 0 <= i < |order| ==> order[i] in Sent(m)
    requires ContentLengthField !in m
    ensures HeadersOutcome(StateHeaders, p, m, order) ==
      (Outcome(StateHeaders, p, 0, Some(NoContentLength)), m[ConnectionField := "close"])
  {
  }

  /**
   * The fields sent: "connection: close", Content-Type as given or
   * text/plain when absent, and every other field of the caller's map
   * unchanged.
   */
  lemma SentFields(m: H.HeaderMap, k: string)
    ensures Sent(m)[ConnectionField] == "close"
    ensures ContentTypeField in Sent(m)
    ensures Sent(m)[ContentTypeField] == if ContentTypeField in m then m[ContentTypeField] else "text/plain"
    ensures k != ConnectionField && k != ContentTypeField ==>
      (k in Sent(m) <==> k in m) && (k in m ==> Sent(m)[k] == m[k])
  {
  }

  /** The state never moves back, and moves at most one step per call. */
  lemma StatesMoveForward(st: WriterState, p: S.Port, code: int, reason: string, m: H.HeaderMap, order: seq<string>, body: string)
    requires forall i :: 0 <= i < |order| ==> order[i] in Sent(m)
    ensures Rank(st) <= Rank(StatusLineOutcome(st, p, code, reason).state) <= Rank(st) + 1
    ensures Rank(st) <= Rank(HeadersOutcome(st, p, m, order).0.state) <= Rank(st) + 1
    ensures BodyOutcome(st, p, body).state == st
  {
  }

  /** The body may be written again and again; on a healthy sink the bodies follow one another. */
  lemma BodiesAppend(p: S.Port, a: string, b: string)
    requires p.budget == None
    ensures var o1 := BodyOutcome(StateBody, p, a);
      var o2 := BodyOutcome(o1.state, o1.port, b);
      o1.state == StateBody && o2 == Outcome(StateBody, S.Port(p.written + a + b, None), |b|, None)
  {
  }

  /**
   * A whole response on a healthy sink: the status line, the header block
   * of the fields sent and the body, in that order and nothing else; the
   * writer ends in Body and the caller's map holds the fields sent.
   */
  lemma WholeResponse(code: int, reason: string, m: H.HeaderMap, order: seq<string>, body: string)
    requires ContentLengthField in m
    requires forall i :: 0 <= i < |order| ==> order[i] in Sent(m)
    ensures var o1 := StatusLineOutcome(StateStatusLine, S.Healthy, code, reason);
      var (o2, m2) := HeadersOutcome(o1.state, o1.port, m, order);
      var o3 := BodyOutcome(o2.state, o2.port, body);
      && m2 == Sent(m)
      && o3 == Outcome(StateBody, S.Port(StatusLine(code, reason) + H.Block(Sent(m), order) + CRLF + body, None), |body|, None)
  {
    var line := StatusLine(code, reason);
    var fields := H.Block(Sent(m), order);
    var block := fields + CRLF;
    var p1 := S.Port(line, None);
    var p2 := S.Port(line + block, None);
    assert StatusLineOutcome(StateStatusLine, S.Healthy, code, reason) == Outcome(StateHeaders, p1, 0, None) by {
      HealthyStatusLine(S.Healthy, code, reason);
      assert "" + line == line;
    }
    assert HeadersOutcome(StateHeaders, p1, m, order) == (Outcome(StateBody, p2, 0, None), Sent(m)) by {
      HealthyHeaders(p1, m, order);
    }
    assert BodyOutcome(StateBody, p2, body) == Outcome(StateBody, S.Port(line + block + body, None), |body|, None) by {
      HealthyBody(p2, body);
    }
    Regroup(line, fields, CRLF);
  }

  /** On a sink that takes every write, the status line is appended and the writer moves to Headers. */
  lemma HealthyStatusLine(p: S.Port, code: int, reason: string)
    requires p.budget == None
    ensures StatusLineOutcome(StateStatusLine, p, code, reason) ==
      Outcome(StateHeaders, S.Port(p.written + StatusLine(code, reason), None), 0, None)
  {
    S.PutHealthy(p, StatusLine(code, reason));
  }

  /** On a sink that takes every write, a map with Content-Length has its block appended and the writer moves to Body. */
  lemma HealthyHeaders(p: S.Port, m: H.HeaderMap, order: seq<string>)
    requires p.budget == None && ContentLengthField in m
    requires forall i :: 0 <= i < |order| ==> order[i] in Sent(m)
    ensures HeadersOutcome(StateHeaders, p, m, order) ==
      (Outcome(StateBody, S.Port(p.written + (H.Block(Sent(m), order) + CRLF), None), 0, None), Sent(m))
  {
    S.PutHealthy(p, H.Block(Sent(m), order) + CRLF);
  }

  /** On a sink that takes every write, the body is appended and its length returned. */
  lemma HealthyBody(p: S.Port, body: string)
    requires p.budget == None
    ensures BodyOutcome(StateBody, p, body) == Outcome(StateBody, S.Port(p.written + body, None), |body|, None)
  {
    S.PutHealthy(p, body);
  }

  /** Set("Connection", "close") on a header map. */
  lemma SetConnection(m: H.HeaderMap)
    ensures H.Assigned(m, "Connection", "close") == Closing(m)
  {
    H.KeyConnection();
    H.AssignedStored(m, "Connection", "close", ConnectionField, "close");
  }

  /** Get("Content-Length") on a header map. */
  lemma GetContentLength(m: H.HeaderMap)
    ensures H.Lookup(m, "Content-Length") == if ContentLengthField in m then Some(m[ContentLengthField]) else None
  {
    H.KeyContentLength();
  }

  /** Get("Content-Type") and Set("Content-Type", "text/plain") on a header map. */
  lemma SetContentType(m: H.HeaderMap)
    ensures H.Lookup(m, "Content-Type") == if ContentTypeField in m then Some(m[ContentTypeField]) else None
    ensures H.Assigned(m, "Content-Type", "text/plain") == m[ContentTypeField := "text/plain"]
  {
    H.KeyContentType();
    H.AssignedStored(m, "Content-Type", "text/plain", ContentTypeField, "text/plain");
  }

  /**
   * The map work of WriteHeaders before anything is written: Connection is
   * set to close; then, only when Content-Length is present, Content-Type
   * is set to text/plain if it is absent.
   */
  method PrepareFields(headers: H.Headers) returns (hasContentLength: bool)
    modifies headers
    ensures hasContentLength <==> ContentLengthField in Closing(old(headers.m))
    ensures headers.m == if hasContentLength then Sent(old(headers.m)) else Closing(old(headers.m))
  {
    SetConnection(headers.m);
    headers.Set("Connection", "close");
    GetContentLength(headers.m);
    var contentLength := headers.Get("Content-Length");
    if contentLength.None? {
      return false;
    }
    SetContentType(headers.m);
    var contentType := headers.Get("Content-Type");
    if contentType.None? {
      headers.Set("Content-Type", "text/plain");
    }
    return true;
  }

  // ---------------------------------------------------------------------
  // The object the source mutates
  // ---------------------------------------------------------------------

  class Writer {
    var state: WriterState
    const writer: S.Sink

    /** NewWriter. */
    constructor (w: S.Sink)
      ensures state == StateStatusLine && writer == w
    {
      writer := w;
      state := StateStatusLine;
    }

    method WriteStatusLine(statusCode: int, reasonPhrase: int -> string) returns (err: Option<WriteError>)
      modifies this, writer
      ensures Outcome(state, writer.Model(), 0, err) ==
        StatusLineOutcome(old(state), old(writer.Model()), statusCode, reasonPhrase(statusCode))
    {
      if state != StateStatusLine {
        return Some(WrongState(state));
      }
      var statusLine := "HTTP/1.1 " + Itoa(statusCode) + " " + reasonPhrase(statusCode) + CRLF;
      var _, ok := writer.Write(statusLine);
      if !ok {
        return Some(SinkFailed);
      }
      state := StateHeaders;
      return None;
    }

    /**
     * The caller's map is updated in place; the field lines are written in
     * the order the map is walked, which the caller does not choose.
     */
    method WriteHeaders(headers: H.Headers) returns (err: Option<WriteError>, ghost order: seq<string>)
      modifies this, writer, headers
      ensures H.Enumerates(order, Sent(old(headers.m)).Keys)
      ensures (Outcome(state, writer.Model(), 0, err), headers.m) ==
        HeadersOutcome(old(state), old(writer.Model()), old(headers.m), order)
    {
      ghost var m0 := headers.m;
      if state != StateHeaders {
        order := H.SomeEnumeration(Sent(m0).Keys);
        return Some(WrongState(state)), order;
      }
      var hasContentLength := PrepareFields(headers);
      if !hasContentLength {
        order := H.SomeEnumeration(Sent(m0).Keys);
        return Some(NoContentLength), order;
      }
      err, order := WriteBlock(headers.m);
    }

    /** The rest of WriteHeaders: serialise the fields, add the blank line, write it all at once. */
    method WriteBlock(fields: H.HeaderMap) returns (err: Option<WriteError>, ghost order: seq<string>)
      requires state == StateHeaders
      modifies this, writer
      ensures H.Enumerates(order, fields.Keys)
      ensures Outcome(state, writer.Model(), 0, err) == BlockOutcome(old(writer.Model()), fields, order)
    {
      var fieldLines;
      fieldLines, order := H.SerializeFields(fields);
      fieldLines := fieldLines + CRLF;
      var _, ok := writer.Write(fieldLines);
      if !ok {
        return Some(SinkFailed), order;
      }
      state := StateBody;
      return None, order;
    }

    method WriteBody(body: string) returns (n: nat, err: Option<WriteError>)
      modifies writer
      ensures Outcome(state, writer.Model(), n, err) == BodyOutcome(state, old(writer.Model()), body)
    {
      if state != StateBody {
        return 0, Some(WrongState(state));
      }
      var k, ok := writer.Write(body);
      if !ok {
        return 0, Some(SinkFailed);
      }
      return k, None;
    }
  }
}
