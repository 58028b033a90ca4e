/**
 * The incremental request parser of pihttp/internal/request: a state
 * machine (Initialized, ParsingHeaders, ParsingBody, Completed) fed from a
 * buffer that grows with every read. Each read appends to the buffer, the
 * parser consumes what it can, and the unconsumed rest stays at the front
 * of the buffer for the next read.
 *
 * The functions below are the specification; the class Request is the
 * object the source mutates, and each of its methods is proved to reach
 * exactly the state its specification function computes.
 */
module PiRequest {
  import opened Wrappers
  import opened Text
  import H = Headers
  import RL = RequestLine
  import opened Source

  datatype State = Initialized | ParsingHeaders | ParsingBody | Completed

  /** The position of a state in the only order the parser visits them. */
  function Rank(s: State): nat {
    match s
    case Initialized => 0
    case ParsingHeaders => 1
    case ParsingBody => 2
    case Completed => 3
  }

  datatype ParseError =
    | Line(lineError: RL.LineError)
    | Header(fieldError: H.FieldError)
    | ContentLengthNotInt
    | ContentLengthRequired
    | BodyLongerThanContentLength
    | ParseInDoneState
    | Incomplete(state: State)   // the source ended before the request was complete
    | ReadFailed(reason: string) // the source reported an error other than end of input

  /** The fields of a Request; contentLength is the memo bodyContentLenght. */
  datatype Req = Req(requestLine: RL.RequestLine, headers: H.HeaderMap, body: string, state: State, contentLength: Option<int>)

  /** A request as ParseFromReader creates it. */
  const Fresh: Req := Req(RL.RequestLine("", "", ""), map[], "", Initialized, None)

  /** What parseSingle and parse report: the request afterwards, bytes consumed, error. */
  datatype Step = Step(r: Req, n: nat, err: Option<ParseError>)

  /** What parseBody reports. */
  datatype BodyStep = BodyStep(r: Req, n: nat, done: bool, err: Option<ParseError>)

  // ---------------------------------------------------------------------
  // Content-Length
  // ---------------------------------------------------------------------

  /** The key contentLength looks up; Get normalises it to itself. */
  const ContentLengthKey: string := "content-length"

  /** Get finds the key as it is written: it is already in stored form. */
  lemma LookupContentLength(headers: H.HeaderMap)
    ensures H.Lookup(headers, ContentLengthKey) ==
      if ContentLengthKey in headers then Some(headers[ContentLengthKey]) else None
  {
    assert Trimmed(ContentLengthKey);
    assert IsLower(ContentLengthKey);
    H.KeyfOfNormalized(ContentLengthKey);
  }

  /**
   * The Content-Length the headers declare, read with Atoi; the stored
   * entry under ContentLengthKey is what Get returns (LookupContentLength).
   */
  function DeclaredLength(headers: H.HeaderMap): Result<Option<int>, ParseError> {
    if ContentLengthKey !in headers then Ok(None)
    else
      match Atoi(headers[ContentLengthKey])
      case None => Err(ContentLengthNotInt)
      case Some(v) => Ok(Some(v))
  }

  /** contentLength: the memo when there is one, otherwise the headers. */
  function ContentLengthOf(r: Req): Result<Option<int>, ParseError> {
    if r.contentLength.Some? then Ok(r.contentLength) else DeclaredLength(r.headers)
  }

  /** The memo after contentLength: set on the first successful read of a declared length. */
  function Memoised(r: Req): Option<int> {
    match ContentLengthOf(r)
    case Ok(Some(v)) => Some(v)
    case _ => r.contentLength
  }

  // ---------------------------------------------------------------------
  // One step
  // ---------------------------------------------------------------------

  /** parseBody on the buffered bytes `data`. */
  function StepBody(r: Req, data: string): (b: BodyStep)
    ensures b.n <= |data|
    ensures b.r.requestLine == r.requestLine && b.r.headers == r.headers && b.r.state == r.state
    ensures b.r.contentLength == Memoised(r)
  {
    match ContentLengthOf(r)
    case Err(e) => BodyStep(r, 0, false, Some(e))
    case Ok(cl) =>
      var r1 := r.(contentLength := Memoised(r));
      var idx := Index(data, "\n");
      if cl.None? && (|data| == 0 || idx == 0) then BodyStep(r1, 0, true, None)
      else if cl.None? then BodyStep(r1, 0, false, Some(ContentLengthRequired))
      else
        var r2 := r1.(body := r1.body + data);
        if |r2.body| > cl.value then BodyStep(r2, 0, false, Some(BodyLongerThanContentLength))
        else if |r2.body| == cl.value then BodyStep(r2, |data|, true, None)
        else BodyStep(r2, |data|, false, None)
  }

  /** parseSingle in the Initialized state: parseRequestLine. */
  function StepLine(r: Req, data: string): (s: Step)
    requires r.state == Initialized
    ensures s.n <= |data|
    ensures s.err.Some? || s.n == 0 ==> s.r == r
    ensures s.err.None? && s.n > 0 ==>
      s.r == r.(requestLine := s.r.requestLine, state := ParsingHeaders) && RL.Acceptable(s.r.requestLine)
  {
    match RL.ParseRequestLine(data)
    case NeedMore => Step(r, 0, None)
    case LineFailed(e) => Step(r, 0, Some(Line(e)))
    case LineParsed(rl, n) =>
      RL.ParseRequestLineParsed(data);
      Step(r.(requestLine := rl, state := ParsingHeaders), n, None)
  }

  /** parseSingle in the ParsingHeaders state: one field line, or the blank line. */
  function StepHeaders(r: Req, data: string): (s: Step)
    requires r.state == ParsingHeaders
    ensures s.n <= |data|
    ensures s.err.Some? || s.n == 0 ==> s.r == r && s.n == 0
    ensures s.err.None? ==> s.r == r.(headers := s.r.headers, state := s.r.state)
    ensures s.err.None? ==> s.r.state == ParsingHeaders || s.r.state == ParsingBody
  {
    var p := H.ParseField(r.headers, data);
    H.ParseFieldConsumesOneLine(r.headers, data);
    if p.err.Some? then Step(r, 0, Some(Header(p.err.value)))
    else Step(r.(headers := p.m, state := if p.done then ParsingBody else ParsingHeaders), p.n, None)
  }

  /** parseSingle in the ParsingBody state: parseBody, completing when it is done. */
  function StepInBody(r: Req, data: string): (s: Step)
    requires r.state == ParsingBody
    ensures s.n <= |data|
    ensures s.r.requestLine == r.requestLine && s.r.headers == r.headers
    ensures s.err.Some? ==> s.r.state == r.state
    ensures s.err.None? ==> s.r.state == ParsingBody || s.r.state == Completed
  {
    var b := StepBody(r, data);
    if b.err.Some? then Step(b.r, b.n, b.err)
    else Step(b.r.(state := if b.done then Completed else ParsingBody), b.n, None)
  }

  /** parseSingle: one step of the state machine on the unconsumed bytes `data`. */
  function StepSingle(r: Req, data: string): (s: Step)
    ensures s.n <= |data|
  {
    match r.state
    case Initialized => StepLine(r, data)
    case ParsingHeaders => StepHeaders(r, data)
    case ParsingBody => StepInBody(r, data)
    case Completed => Step(r, 0, Some(ParseInDoneState))
  }

  /**
   * parse: steps until the request is complete, a step fails, a step
   * consumes nothing, or the bytes run out. The result counts the bytes
   * consumed from `data`; a failure reports none.
   */
  function StepAll(r: Req, data: string): (s: Step)
    ensures s.n <= |data|
    decreases |data|
  {
    if r.state == Completed then Step(r, 0, None)
    else
      var s := StepSingle(r, data);
      if s.err.Some? then Step(s.r, 0, s.err)
      else if |data| == 0 || s.n == 0 then Step(s.r, s.n, None)
      else
        var t := StepAll(s.r, data[s.n..]);
        if t.err.Some? then t else Step(t.r, s.n + t.n, None)
  }

  /** What parse reports when `total` bytes were consumed before the steps `t`. */
  function Resumed(t: Step, total: nat): Step {
    if t.err.Some? then t else Step(t.r, total + t.n, None)
  }

  // ---------------------------------------------------------------------
  // The read loop
  // ---------------------------------------------------------------------


  /** The read loop of ParseFromReader, from request `r` with `buf` buffered. */
  function ReadAll(r: Req, buf: string, src: seq<ReadOutcome>): Result<Req, ParseError>
    decreases |src|
  {
    if r.state == Completed then Ok(r)
    else if |src| == 0 then Err(Incomplete(r.state))
    else
      match src[0]
      case Failure(reason) => Err(ReadFailed(reason))
      case Bytes(chunk) =>
        var data := buf + chunk;
        var s := StepAll(r, data);
        if s.err.Some? then Err(s.err.value)
        else ReadAll(s.r, data[s.n..], src[1..])
  }

  /** ParseFromReader. */
  function ParseFromReader(src: seq<ReadOutcome>): Result<Req, ParseError> {
    ReadAll(Fresh, "", src)
  }

  // ---------------------------------------------------------------------
  // Properties
  // ---------------------------------------------------------------------

  /** A step never moves the state backwards, and moves it at most one place. */
  lemma StepSingleForward(r: Req, data: string)
    ensures Rank(r.state) <= Rank(StepSingle(r, data).r.state) <= Rank(r.state) + 1
  {
  }

  lemma {:induction false} StepAllForward(r: Req, data: string)
    ensures Rank(r.state) <= Rank(StepAll(r, data).r.state)
    decreases |data|
  {
    if r.state != Completed {
      var s := StepSingle(r, data);
      StepSingleForward(r, data);
      if s.err.None? && |data| != 0 && s.n != 0 {
        StepAllForward(s.r, data[s.n..]);
      }
    }
  }

  /** parse in the Completed state is an error, and so is nothing else without bytes to blame. */
  lemma StepSingleDone(r: Req, data: string)
    requires r.state == Completed
    ensures StepSingle(r, data) == Step(r, 0, Some(ParseInDoneState))
  {
  }

  /** Without a Content-Length the body step completes on no bytes or a leading LF, and fails on anything else. */
  lemma {:induction false} StepBodyWithoutLength(r: Req, data: string)
    requires ContentLengthOf(r) == Ok(None)
    ensures var b := StepBody(r, data);
      && b.r == r && b.n == 0
      && (b.done <==> (data == "" || data[0] == '\n'))
      && (b.err.Some? <==> !b.done)
      && (b.err.Some? ==> b.err.value == ContentLengthRequired)
  {
    if data != "" {
      assert OccursAt(data, "\n", 0) <==> data[0] == '\n' by {
        assert data[0..1] == [data[0]];
      }
    }
  }

  /**
   * With a Content-Length every buffered byte joins the body; too many is an
   * error, exactly enough completes, fewer consumes them all and waits.
   */
  lemma StepBodyWithLength(r: Req, data: string, cl: int)
    requires ContentLengthOf(r) == Ok(Some(cl))
    ensures var b := StepBody(r, data);
      && b.r == r.(contentLength := Some(cl), body := r.body + data)
      && (b.err.Some? <==> |r.body| + |data| > cl)
      && (b.err.Some? ==> b.err.value == BodyLongerThanContentLength && b.n == 0)
      && (b.err.None? ==> b.n == |data| && (b.done <==> |r.body| + |data| == cl))
  {
  }

  /** The declared length is memoised on the first body step. */
  lemma StepBodyMemo(r: Req, data: string)
    requires r.contentLength.None? && DeclaredLength(r.headers).Ok?
    ensures StepBody(r, data).r.contentLength == DeclaredLength(r.headers).value
  {
    assert ContentLengthOf(r) == DeclaredLength(r.headers);
    assert Memoised(r) == DeclaredLength(r.headers).value;
  }

  /** A declared length that is not an integer fails every body step, and changes nothing. */
  lemma StepBodyBadLength(r: Req, data: string)
    requires r.contentLength.None? && DeclaredLength(r.headers).Err?
    ensures StepBody(r, data) == BodyStep(r, 0, false, Some(ContentLengthNotInt))
  {
    assert ContentLengthOf(r) == Err(ContentLengthNotInt);
  }

  /** A complete body: as long as the declared Content-Length, or empty without one. */
  predicate BodyComplete(r: Req) {
    match DeclaredLength(r.headers)
    case Ok(None) => r.body == ""
    case Ok(Some(k)) => |r.body| == k
    case Err(_) => false
  }

  /**
   * The invariant of a request between error-free steps: a request line is
   * stored once the first state is left, the body stays empty until a
   * Content-Length is memoised, the memo is set only in the body states
   * and agrees with the headers, and a complete request has a complete body.
   */
  predicate Valid(r: Req) {
    && (r.state == Initialized ==> r == Fresh)
    && (r.state != Initialized ==> RL.Acceptable(r.requestLine))
    && (r.contentLength.None? ==> r.body == "")
    && (r.contentLength.Some? ==> Rank(r.state) >= 2 && DeclaredLength(r.headers) == Ok(r.contentLength))
    && (r.state == ParsingBody && r.contentLength.Some? ==> |r.body| < r.contentLength.value)
    && (r.state == Completed ==> BodyComplete(r))
  }

  /** With the invariant, the memo never changes the answer contentLength gives. */
  lemma MemoTransparent(r: Req)
    requires Valid(r)
    ensures ContentLengthOf(r) == DeclaredLength(r.headers)
  {
  }

  lemma FreshValid()
    ensures Valid(Fresh)
  {
  }

  lemma ValidAfterLine(r: Req, data: string)
    requires Valid(r) && r.state == Initialized
    requires StepLine(r, data).err.None?
    ensures Valid(StepLine(r, data).r)
  {
  }

  lemma ValidAfterHeaders(r: Req, data: string)
    requires Valid(r) && r.state == ParsingHeaders
    requires StepHeaders(r, data).err.None?
    ensures Valid(StepHeaders(r, data).r)
  {
  }

  lemma {:induction false} ValidAfterBody(r: Req, data: string)
    requires Valid(r) && r.state == ParsingBody
    requires StepInBody(r, data).err.None?
    ensures Valid(StepInBody(r, data).r)
  {
    MemoTransparent(r);
    var cl := ContentLengthOf(r);
    if cl == Ok(None) {
      StepBodyWithoutLength(r, data);
    } else {
      StepBodyWithLength(r, data, cl.value.value);
    }
  }

  lemma {:induction false} StepSingleValid(r: Req, data: string)
    requires Valid(r)
    requires StepSingle(r, data).err.None?
    ensures Valid(StepSingle(r, data).r)
  {
    match r.state
    case Initialized => ValidAfterLine(r, data);
    case ParsingHeaders => ValidAfterHeaders(r, data);
    case ParsingBody => ValidAfterBody(r, data);
  }

  lemma {:induction false} StepAllValid(r: Req, data: string)
    requires Valid(r)
    requires StepAll(r, data).err.None?
    ensures Valid(StepAll(r, data).r)
    decreases |data|
  {
    if r.state != Completed {
      var s := StepSingle(r, data);
      StepSingleValid(r, data);
      if |data| != 0 && s.n != 0 {
        StepAllValid(s.r, data[s.n..]);
      }
    }
  }

  lemma {:induction false} ReadAllValid(r: Req, buf: string, src: seq<ReadOutcome>)
    requires Valid(r)
    requires ReadAll(r, buf, src).Ok?
    ensures Valid(ReadAll(r, buf, src).value)
    ensures ReadAll(r, buf, src).value.state == Completed
    decreases |src|
  {
    if r.state != Completed {
      var data := buf + src[0].chunk;
      var s := StepAll(r, data);
      StepAllValid(r, data);
      ReadAllValid(s.r, data[s.n..], src[1..]);
    }
  }

  /**
   * A request that ParseFromReader returns is complete, its request line is
   * one the parser accepts, and its body is exactly as long as its
   * Content-Length declares (empty when there is none).
   */
  lemma ParseFromReaderSound(src: seq<ReadOutcome>)
    requires ParseFromReader(src).Ok?
    ensures var r := ParseFromReader(src).value;
      && r.state == Completed
      && RL.Acceptable(r.requestLine)
      && BodyComplete(r)
  {
    FreshValid();
    ReadAllValid(Fresh, "", src);
  }

  /**
   * The two errors of the read loop itself. The source ending before the
   * request is complete gives Incomplete with the state reached, and only
   * when every read delivered bytes; a failed read gives ReadFailed with its
   * reason, and only for the first failure in the source.
   */
  lemma {:induction false} ReadAllErrors(r: Req, buf: string, src: seq<ReadOutcome>)
    ensures r.state != Completed && |src| == 0 ==> ReadAll(r, buf, src) == Err(Incomplete(r.state))
    ensures r.state != Completed && |src| != 0 && src[0].Failure? ==> ReadAll(r, buf, src) == Err(ReadFailed(src[0].reason))
    ensures ReadAll(r, buf, src).Err? && ReadAll(r, buf, src).error.Incomplete? ==>
      && ReadAll(r, buf, src).error.state != Completed
      && forall i :: 0 <= i < |src| ==> src[i].Bytes?
    ensures ReadAll(r, buf, src).Err? && ReadAll(r, buf, src).error.ReadFailed? ==>
      exists i :: 0 <= i < |src| && src[i] == Failure(ReadAll(r, buf, src).error.reason)
        && forall j :: 0 <= j < i ==> src[j].Bytes?
    decreases |src|
  {
    if r.state != Completed && |src| != 0 && src[0].Bytes? {
      var data := buf + src[0].chunk;
      var s := StepAll(r, data);
      StepAllErrorKind(r, data);
      if s.err.None? {
        ReadAllErrors(s.r, data[s.n..], src[1..]);
        ReadAllOnBytes(r, buf, src, s);
        var e := ReadAll(r, buf, src);
        if e.Err? && e.error.ReadFailed? {
          FirstFailureShifted(src, e.error.reason);
        }
        if e.Err? && e.error.Incomplete? {
          AllBytesShifted(src);
        }
      }
    }
  }

  /** The parse steps report only parse errors: the two read-loop errors never come from them. */
  lemma {:induction false} StepAllErrorKind(r: Req, data: string)
    ensures StepAll(r, data).err.Some? ==> !StepAll(r, data).err.value.Incomplete? && !StepAll(r, data).err.value.ReadFailed?
    decreases |data|
  {
    if r.state != Completed {
      var s := StepSingle(r, data);
      if s.err.None? && |data| != 0 && s.n != 0 {
        StepAllErrorKind(s.r, data[s.n..]);
      }
    }
  }

  /** A read that delivers bytes and a parse that does not fail: the loop goes on with the rest. */
  lemma ReadAllOnBytes(r: Req, buf: string, src: seq<ReadOutcome>, s: Step)
    requires r.state != Completed && |src| != 0 && src[0].Bytes?
    requires s == StepAll(r, buf + src[0].chunk) && s.err.None?
    ensures s.n <= |buf + src[0].chunk|
    ensures ReadAll(r, buf, src) == ReadAll(s.r, (buf + src[0].chunk)[s.n..], src[1..])
  {
  }

  lemma AllBytesShifted(src: seq<ReadOutcome>)
    requires |src| != 0 && src[0].Bytes?
    requires forall i :: 0 <= i < |src[1..]| ==> src[1..][i].Bytes?
    ensures forall i :: 0 <= i < |src| ==> src[i].Bytes?
  {
    forall i | 0 <= i < |src| ensures src[i].Bytes? {
      if i > 0 { assert src[i] == src[1..][i - 1]; }
    }
  }

  /** A step that consumes nothing without completing leaves a state on which the same step again consumes nothing. */
  lemma StepSingleStuck(r: Req, data: string)
    requires StepSingle(r, data).err.None? && StepSingle(r, data).n == 0
    requires StepSingle(r, data).r.state != Completed
    ensures StepSingle(StepSingle(r, data).r, data) == StepSingle(r, data)
  {
    match r.state
    case Initialized =>
    case ParsingHeaders =>
      H.ParseFieldConsumesOneLine(r.headers, data);
    case ParsingBody =>
      var cl := ContentLengthOf(r);
      if cl == Ok(None) {
        StepBodyWithoutLength(r, data);
      } else if cl.Ok? {
        StepBodyWithLength(r, data, cl.value.value);
        StepBodyWithLength(StepSingle(r, data).r, data, cl.value.value);
      }
    case Completed =>
  }

  /**
   * parse stops only when it cannot go further: unless it failed or the
   * request is complete, one more step on what it left unconsumed
   * consumes nothing and changes nothing.
   */
  lemma {:induction false} StepAllMaximal(r: Req, data: string)
    requires StepAll(r, data).err.None?
    requires StepAll(r, data).r.state != Completed
    ensures var s := StepAll(r, data);
      StepSingle(s.r, data[s.n..]) == Step(s.r, 0, None)
    decreases |data|
  {
    var u := StepAll(r, data);
    assert r.state != Completed;
    var s := StepSingle(r, data);
    assert s.err.None?;
    if |data| != 0 && s.n != 0 {
      var rest := data[s.n..];
      var t := StepAll(s.r, rest);
      StepAllGoesOn(r, data, s);
      StepAllMaximal(s.r, rest);
      StuckAfterResume(u, t, data, s.n);
    } else {
      assert u == Step(s.r, 0, None);
      assert data[0..] == data;
      StepSingleStuck(r, data);
      assert StepSingle(u.r, data[u.n..]) == Step(u.r, 0, None);
    }
  }

  /** A parse resumed after `k` bytes that stopped idle stops idle on the whole data too. */
  lemma StuckAfterResume(u: Step, t: Step, data: string, k: nat)
    requires u == Resumed(t, k) && u.err.None? && k + t.n <= |data|
    requires StepSingle(t.r, data[k..][t.n..]) == Step(t.r, 0, None)
    ensures StepSingle(u.r, data[u.n..]) == Step(u.r, 0, None)
  {
    DropDrop(data, k, t.n);
  }

  /** parse goes on after a step that consumed bytes, from where that step left it. */
  lemma StepAllGoesOn(r: Req, data: string, s: Step)
    requires r.state != Completed && StepSingle(r, data) == s && s.err.None? && |data| != 0 && s.n != 0
    ensures StepAll(r, data) == Resumed(StepAll(s.r, data[s.n..]), s.n)
  {
  }

  // ---------------------------------------------------------------------
  // The object the source mutates
  // ---------------------------------------------------------------------

  class Request {
    var requestLine: RL.RequestLine
    const headers: H.Headers
    var body: string
    var state: State
    var bodyContentLength: Option<int>

    function Model(): Req
      reads this, headers
    {
      Req(requestLine, headers.m, body, state, bodyContentLength)
    }

    constructor ()
      ensures Model() == Fresh
      ensures fresh(headers)
    {
      requestLine := RL.RequestLine("", "", "");
      headers := new H.Headers();
      body := "";
      state := Initialized;
      bodyContentLength := None;
    }

    method ContentLength() returns (res: Result<Option<int>, ParseError>)
      modifies this
      ensures res == if old(bodyContentLength).Some? then Ok(old(bodyContentLength)) else DeclaredLength(headers.m)
      ensures bodyContentLength == if res.Ok? && res.value.Some? then res.value else old(bodyContentLength)
      ensures requestLine == old(requestLine) && body == old(body) && state == old(state)
    {
      if bodyContentLength.Some? {
        return Ok(bodyContentLength);
      }
      var contentLengthStr := headers.Get(ContentLengthKey);
      LookupContentLength(headers.m);
      if contentLengthStr.None? {
        return Ok(None);
      }
      var contentLength := Atoi(contentLengthStr.value);
      if contentLength.None? {
        return Err(ContentLengthNotInt);
      }
      bodyContentLength := contentLength;
      return Ok(contentLength);
    }

    method ParseBody(data: string) returns (n: nat, done: bool, err: Option<ParseError>)
      modifies this
      ensures BodyStep(Model(), n, done, err) == StepBody(old(Model()), data)
    {
      var cl := ContentLength();
      if cl.Err? {
        return 0, false, Some(cl.error);
      }
      var idx := Index(data, "\n");
      if (cl.value.None? && |data| == 0) || (cl.value.None? && idx == 0) {
        return 0, true, None;
      }
      if cl.value.None? {
        return 0, false, Some(ContentLengthRequired);
      }
      body := body + data;
      if |body| > cl.value.value {
        return 0, false, Some(BodyLongerThanContentLength);
      }
      if |body| == cl.value.value {
        return |data|, true, None;
      }
      return |data|, false, None;
    }

    method ParseRequestLine(data: string) returns (n: nat, err: Option<ParseError>)
      modifies this
      ensures match RL.ParseRequestLine(data)
        case NeedMore => n == 0 && err == None && Model() == old(Model())
        case LineFailed(e) => n == 0 && err == Some(Line(e)) && Model() == old(Model())
        case LineParsed(rl, k) => n == k && err == None && Model() == old(Model()).(requestLine := rl)
    {
      var step := RL.ParseLine(data);
      match step
      case NeedMore =>
        return 0, None;
      case LineFailed(e) =>
        return 0, Some(Line(e));
      case LineParsed(rl, k) =>
        requestLine := rl;
        return k, None;
    }

    method ParseSingle(data: string) returns (n: nat, err: Option<ParseError>)
      modifies this, headers
      ensures Step(Model(), n, err) == StepSingle(old(Model()), data)
    {
      match state
      case Initialized =>
        var k, e := ParseRequestLine(data);
        if e.Some? {
          return 0, e;
        }
        if k == 0 {
          return 0, None;
        }
        RL.ParseRequestLineParsed(data);
        state := ParsingHeaders;
        return k, None;
      case ParsingHeaders =>
        var k, done, e := headers.Parse(data);
        if e.Some? {
          return 0, Some(Header(e.value));
        }
        if done {
          state := ParsingBody;
        }
        return k, None;
      case ParsingBody =>
        var k, done, e := ParseBody(data);
        if e.Some? {
          return k, e;
        }
        if done {
          state := Completed;
        }
        return k, None;
      case Completed =>
        return 0, Some(ParseInDoneState);
    }

    method Parse(data: string) returns (n: nat, err: Option<ParseError>)
      modifies this, headers
      ensures Step(Model(), n, err) == StepAll(old(Model()), data)
    {
      var totalBytesParsed := 0;
      assert data[totalBytesParsed..] == data;
      while state != Completed
        invariant totalBytesParsed <= |data|
        invariant StepAll(old(Model()), data) == Resumed(StepAll(Model(), data[totalBytesParsed..]), totalBytesParsed)
        decreases |data| - totalBytesParsed
      {
        var toBeParsed := data[totalBytesParsed..];
        var numBytesParsed, e := ParseSingle(toBeParsed);
        totalBytesParsed := totalBytesParsed + numBytesParsed;
        if e.Some? {
          return 0, e;
        }
        if |toBeParsed| == 0 || numBytesParsed == 0 {
          return totalBytesParsed, None;
        }
        assert data[totalBytesParsed..] == toBeParsed[numBytesParsed..];
      }
      return totalBytesParsed, None;
    }
  }

  /** ParseFromReader: read, parse, keep the unconsumed bytes, until complete. */
  method ReadRequest(src: seq<ReadOutcome>) returns (request: Request?, err: Option<ParseError>)
    ensures match ParseFromReader(src)
      case Ok(r) => request != null && err == None && request.Model() == r
      case Err(e) => request == null && err == Some(e)
  {
    var req := new Request();
    var buff := "";
    var i := 0;
    while req.state != Completed
      invariant 0 <= i <= |src|
      invariant fresh(req) && fresh(req.headers)
      invariant ReadAll(req.Model(), buff, src[i..]) == ParseFromReader(src)
      decreases |src| - i
    {
      if i == |src| {
        return null, Some(Incomplete(req.state));
      }
      match src[i]
      case Failure(reason) =>
        return null, Some(ReadFailed(reason));
      case Bytes(chunk) =>
        buff := buff + chunk;
        var numBytesParsed, e := req.Parse(buff);
        if e.Some? {
          return null, e;
        }
        buff := buff[numBytesParsed..];
        i := i + 1;
    }
    return req, None;
  }
}
