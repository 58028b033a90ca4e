/**
 * HandlerError of httpfromtcp/internal/server: a status code and a message
 * that a handler returns instead of a response, and that the server then
 * writes through the three-state writer as a status line, a header block
 * holding the message's length, and the message as the body.
 */
module TcpHandler {
  import opened Wrappers
  import opened Text
  import H = Headers
  import S = Sink
  import R = TcpResponse

  /** The header map Write builds: a new map with Content-Length added. */
  function ErrorFields(message: string): (m: H.HeaderMap)
    ensures m == map[R.ContentLengthField := Itoa(|message|)]
  {
    ItoaTrimmed(|message|);
    ContentLengthAdded(Itoa(|message|));
    H.Added(map[], "Content-Length", Itoa(|message|))
  }

  /** The header map Write builds: a new map, then Add("Content-Length", the decimal length of the message). */
  method NewErrorHeaders(message: string) returns (headers: H.Headers)
    ensures fresh(headers) && headers.m == ErrorFields(message)
  {
    headers := new H.Headers();
    headers.Add("Content-Length", Itoa(|message|));
  }

  /** Add("Content-Length", v) on a new map, for a value with no white space around it. */
  lemma ContentLengthAdded(v: string)
    requires TrimSpace(v) == v
    ensures H.Added(map[], "Content-Length", v) == map[R.ContentLengthField := v]
  {
    H.KeyContentLength();
    H.AddedStored(map[], "Content-Length", v, R.ContentLengthField, v);
  }

  /** The fields the writer sends for an error: the length of the message, Connection: close, and Content-Type: text/plain. */
  function ErrorHeader(message: string): H.HeaderMap {
    map[R.ContentLengthField := Itoa(|message|), R.ConnectionField := "close", R.ContentTypeField := "text/plain"]
  }

  /** The writer sends exactly the three fields of ErrorHeader. */
  lemma SentErrorFields(message: string)
    ensures R.Sent(ErrorFields(message)) == ErrorHeader(message)
  {
    var v := Itoa(|message|);
    R.DistinctFields();
    ThreeFields(R.ContentLengthField, R.ConnectionField, R.ContentTypeField, v);
  }

  /** Three distinct names: the length field, then Connection, then Content-Type set in turn. */
  lemma ThreeFields(length: string, connection: string, contentType: string, v: string)
    requires length != connection && length != contentType && connection != contentType
    ensures contentType !in map[length := v][connection := "close"]
    ensures map[length := v][connection := "close"][contentType := "text/plain"] ==
      map[length := v, connection := "close", contentType := "text/plain"]
  {
  }

  datatype HandlerError = HandlerError(statusCode: int, message: string) {

    /** Error: the text of the error value. */
    function Error(): (s: string)
      ensures |s| == 0
    {
      ""
    }

    /**
     * What Write leaves the writer and its sink in, and the error it
     * returns: the status line, then the header block, then the body, each
     * only when the one before it succeeded; the first error is the result.
     */
    function WriteOutcome(st: R.WriterState, p: S.Port, reason: string, order: seq<string>): R.Outcome
      requires forall i :: 0 <= i < |order| ==> order[i] in ErrorHeader(message)
    {
      SentErrorFields(message);
      var o1 := R.StatusLineOutcome(st, p, statusCode, reason);
      if o1.err.Some? then o1
      else
        var o2 := R.HeadersOutcome(o1.state, o1.port, ErrorFields(message), order).0;
        if o2.err.Some? then o2
        else R.BodyOutcome(o2.state, o2.port, message)
    }

    /** WriteOutcome step by step: each step's outcome is the result once that step fails. */
    lemma OutcomeSteps(st: R.WriterState, p: S.Port, reason: string, order: seq<string>)
      requires forall i :: 0 <= i < |order| ==> order[i] in ErrorHeader(message)
      requires R.Sent(ErrorFields(message)) == ErrorHeader(message)
      ensures var o1 := R.StatusLineOutcome(st, p, statusCode, reason);
        var o2 := R.HeadersOutcome(o1.state, o1.port, ErrorFields(message), order).0;
        && (o1.err.Some? ==> WriteOutcome(st, p, reason, order) == o1)
        && (o1.err.None? && o2.err.Some? ==> WriteOutcome(st, p, reason, order) == o2)
        && (o1.err.None? && o2.err.None? ==> WriteOutcome(st, p, reason, order) == R.BodyOutcome(o2.state, o2.port, message))
    {
    }

    /** Write: the order of the field lines is the order the writer walks its map in. */
    method Write(w: R.Writer, reasonPhrase: int -> string) returns (err: Option<R.WriteError>, ghost order: seq<string>)
      modifies w, w.writer
      ensures H.Enumerates(order, ErrorHeader(message).Keys)
      ensures var o := WriteOutcome(old(w.state), old(w.writer.Model()), reasonPhrase(statusCode), order);
        w.state == o.state && w.writer.Model() == o.port && err == o.err
    {
      ghost var st0, p0, reason := w.state, w.writer.Model(), reasonPhrase(statusCode);
      SentErrorFields(message);
      err := w.WriteStatusLine(statusCode, reasonPhrase);
      if err.Some? {
        order := H.SomeEnumeration(ErrorHeader(message).Keys);
        OutcomeSteps(st0, p0, reason, order);
        return err, order;
      }
      var headers := NewErrorHeaders(message);
      err, order := w.WriteHeaders(headers);
      OutcomeSteps(st0, p0, reason, order);
      if err.Some? {
        return err, order;
      }
      var _, e := w.WriteBody(message);
      return e, order;
    }
  }

  /**
   * On a new writer over a healthy sink, an error is written as the status
   * line, the header block of its three fields and the message, in that
   * order and nothing else, and the writer ends in Body.
   */
  lemma ErrorResponse(he: HandlerError, reason: string, order: seq<string>)
    requires H.Enumerates(order, ErrorHeader(he.message).Keys)
    ensures he.WriteOutcome(R.StateStatusLine, S.Healthy, reason, order) ==
      R.Outcome(R.StateBody, S.Port(R.StatusLine(he.statusCode, reason) + H.Block(ErrorHeader(he.message), order) + CRLF + he.message, None),
        |he.message|, None)
  {
    SentErrorFields(he.message);
    R.WholeResponse(he.statusCode, reason, ErrorFields(he.message), order, he.message);
  }

  /**
   * The first step that fails decides the result, and the steps after it
   * are skipped: a sink that takes no write gets nothing, one that takes a
   * single write gets only the status line, and one that takes two gets
   * the status line and the header block but not the body.
   */
  lemma FirstErrorWins(he: HandlerError, reason: string, order: seq<string>, written: string)
    requires H.Enumerates(order, ErrorHeader(he.message).Keys)
    ensures he.WriteOutcome(R.StateStatusLine, S.Port(written, Some(0)), reason, order) ==
      R.Outcome(R.StateStatusLine, S.Port(written, Some(0)), 0, Some(R.SinkFailed))
    ensures he.WriteOutcome(R.StateStatusLine, S.Port(written, Some(1)), reason, order) ==
      R.Outcome(R.StateHeaders, S.Port(written + R.StatusLine(he.statusCode, reason), Some(0)), 0, Some(R.SinkFailed))
    ensures he.WriteOutcome(R.StateStatusLine, S.Port(written, Some(2)), reason, order) ==
      R.Outcome(R.StateBody,
        S.Port(written + R.StatusLine(he.statusCode, reason) + (H.Block(ErrorHeader(he.message), order) + CRLF), Some(0)),
        0, Some(R.SinkFailed))
  {
    var line := R.StatusLine(he.statusCode, reason);
    var fields := ErrorFields(he.message);
    var block := H.Block(ErrorHeader(he.message), order) + CRLF;
    assert R.ContentLengthField in R.Closing(fields) && R.Sent(fields) == ErrorHeader(he.message) by {
      SentErrorFields(he.message);
    }
    // A sink that takes no write: the status line fails.
    var p0 := S.Port(written, Some(0));
    assert he.WriteOutcome(R.StateStatusLine, p0, reason, order) == R.Outcome(R.StateStatusLine, p0, 0, Some(R.SinkFailed)) by {
      assert R.StatusLineOutcome(R.StateStatusLine, p0, he.statusCode, reason) == R.Outcome(R.StateStatusLine, p0, 0, Some(R.SinkFailed));
    }
    // A sink that takes one write: the header block fails.
    var p1 := S.Port(written + line, Some(0));
    assert R.StatusLineOutcome(R.StateStatusLine, S.Port(written, Some(1)), he.statusCode, reason) == R.Outcome(R.StateHeaders, p1, 0, None);
    assert R.HeadersOutcome(R.StateHeaders, p1, fields, order).0 == R.Outcome(R.StateHeaders, p1, 0, Some(R.SinkFailed)) by {
      assert R.BlockOutcome(p1, R.Sent(fields), order) == R.Outcome(R.StateHeaders, p1, 0, Some(R.SinkFailed));
    }
    // A sink that takes two writes: the body fails.
    var q1 := S.Port(written + line, Some(1));
    var q2 := S.Port(written + line + block, Some(0));
    assert R.StatusLineOutcome(R.StateStatusLine, S.Port(written, Some(2)), he.statusCode, reason) == R.Outcome(R.StateHeaders, q1, 0, None);
    assert R.HeadersOutcome(R.StateHeaders, q1, fields, order).0 == R.Outcome(R.StateBody, q2, 0, None) by {
      assert R.BlockOutcome(q1, R.Sent(fields), order) == R.Outcome(R.StateBody, q2, 0, None);
    }
    assert R.BodyOutcome(R.StateBody, q2, he.message) == R.Outcome(R.StateBody, q2, 0, Some(R.SinkFailed));
  }

  /** A writer that has already written its status line refuses the error and writes nothing. */
  lemma UsedWriterRefuses(he: HandlerError, st: R.WriterState, p: S.Port, reason: string, order: seq<string>)
    requires st != R.StateStatusLine
    requires H.Enumerates(order, ErrorHeader(he.message).Keys)
    ensures he.WriteOutcome(st, p, reason, order) == R.Outcome(st, p, 0, Some(R.WrongState(st)))
  {
  }
}
