/**
 * The earlier request parser, httpfromtcp/internal/request: a state
 * machine with three states (Initialized, ParsingHeaders, Completed) that
 * reads the request line and the field lines and no body. The end of input
 * is not an error: ParseFromReader returns whatever it has parsed so far.
 *
 * parse in this snapshot has an early return that compares the running
 * total of consumed bytes with the length of the slice last parsed. The
 * Guard below selects that return as written, or the loop without it; the
 * Findings section of the README explains why the second is the intended
 * one.
 */
module TcpRequest {
  import opened Wrappers
  import opened Text
  import opened Source
  import H = Headers
  import RL = RequestLine

  datatype State = Initialized | ParsingHeaders | Completed

  /** The position of a state in the only order the parser visits them. */
  function Rank(s: State): nat {
    match s
    case Initialized => 0
    case ParsingHeaders => 1
    case Completed => 2
  }

  datatype ParseError =
    | Line(lineError: RL.LineError)
    | Header(fieldError: H.FieldError)
    | ParseInDoneState
    | ReadFailed(reason: string) // the source reported an error other than end of input

  /** The fields of a Request. */
  datatype Req = Req(requestLine: RL.RequestLine, headers: H.HeaderMap, state: State)

  /** A request as ParseFromReader creates it. */
  const Fresh: Req := Req(RL.RequestLine("", "", ""), map[], Initialized)

  /** What parseSingle and parse report: the request afterwards, bytes consumed, error. */
  datatype Step = Step(r: Req, n: nat, err: Option<ParseError>)

  /** parseSingle in the Initialized state: parseRequestLine. */
  function StepLine(r: Req, data: string): (s: Step)
    requires r.state == Initialized
    ensures s.n <= |data|
    ensures s.err.Some? || s.n == 0 ==> s.r == r && s.n == 0
    ensures s.err.Some? ==> s.err.value.Line?
    ensures s.err.None? && s.n == 0 ==> !Contains(data, CRLF)
    ensures s.err.None? && s.n > 0 ==>
      s.r == r.(requestLine := s.r.requestLine, state := ParsingHeaders) && RL.Acceptable(s.r.requestLine)
  {
    match RL.ParseRequestLine(data)
    case NeedMore => Step(r, 0, None)
    case LineFailed(e) => Step(r, 0, Some(Line(e)))
    case LineParsed(rl, n) =>
      RL.ParseRequestLineParsed(data);
      Step(r.(requestLine := rl, state := ParsingHeaders), n, None)
  }

  /** parseSingle in the ParsingHeaders state: one field line, or the blank line that completes the request. */
  function StepHeaders(r: Req, data: string): (s: Step)
    requires r.state == ParsingHeaders
    ensures s.n <= |data|
    ensures s.err.Some? || s.n == 0 ==> s.r == r && s.n == 0
    ensures s.err.Some? ==> s.err.value.Header?
    ensures s.err.None? && s.n == 0 ==> !Contains(data, CRLF)
    ensures s.err.None? ==> s.r == r.(headers := s.r.headers, state := s.r.state)
    ensures s.err.None? ==> s.r.state == ParsingHeaders || s.r.state == Completed
  {
    var p := H.ParseField(r.headers, data);
    H.ParseFieldConsumesOneLine(r.headers, data);
    if p.err.Some? then Step(r, 0, Some(Header(p.err.value)))
    else Step(r.(headers := p.m, state := if p.done then Completed else ParsingHeaders), p.n, None)
  }

  /** parseSingle: one step of the state machine on the unconsumed bytes `data`; a failed step changes nothing. */
  function StepSingle(r: Req, data: string): (s: Step)
    ensures s.n <= |data|
    ensures s.err.Some? ==> s.r == r && s.n == 0
    ensures s.err == Some(ParseInDoneState) <==> r.state == Completed
    ensures s.err.None? && s.n == 0 ==> !Contains(data, CRLF)
  {
    match r.state
    case Initialized => StepLine(r, data)
    case ParsingHeaders => StepHeaders(r, data)
    case Completed => Step(r, 0, Some(ParseInDoneState))
  }

  /** The early returns of parse: as written, or only the one for a step that consumes nothing. */
  datatype Guard = AsWritten | Corrected

  /** What parse reports when `total` bytes were consumed before the steps `t`. */
  function Resumed(t: Step, total: nat): Step {
    if t.err.Some? then t else Step(t.r, total + t.n, None)
  }

  /** Counting `a` bytes and then `b` more is counting `a + b`. */
  lemma ResumedTwice(t: Step, a: nat, b: nat)
    ensures Resumed(Resumed(t, a), b) == Resumed(t, b + a)
  {
  }

  /**
   * parse on a buffer of `size` bytes of which `rest` is still unconsumed
   * (so `size - |rest|` bytes are consumed, Go's totalBytesParsed): steps
   * until the request is complete, a step fails (reporting no bytes), a
   * step consumes nothing, or (as written) the running total exceeds the
   * length of the slice the step was given. The count is of the bytes
   * consumed from `rest`.
   */
  function ParseRun(g: Guard, r: Req, rest: string, size: int): (p: Step)
    ensures p.n <= |rest|
    decreases |rest|
  {
    if r.state == Completed then Step(r, 0, None)
    else
      var s := StepSingle(r, rest);
      if s.err.Some? then Step(s.r, 0, s.err)
      else if g == AsWritten && size - |rest| + s.n > |rest| then Step(s.r, s.n, None)
      else if s.n == 0 then Step(s.r, 0, None)
      else Resumed(ParseRun(g, s.r, rest[s.n..], size), s.n)
  }

  /** parse on the buffered bytes `data`. */
  function ParseBuffer(g: Guard, r: Req, data: string): (p: Step)
    ensures p.n <= |data|
  {
    ParseRun(g, r, data, |data|)
  }

  /** The read loop of ParseFromReader, from request `r` with `buf` buffered; the end of input ends it without error. */
  function ReadAll(g: Guard, r: Req, buf: string, src: seq<ReadOutcome>): Result<Req, ParseError>
    decreases |src|
  {
    if r.state == Completed || |src| == 0 then Ok(r)
    else
      match src[0]
      case Failure(reason) => Err(ReadFailed(reason))
      case Bytes(chunk) =>
        var data := buf + chunk;
        var s := ParseBuffer(g, r, data);
        if s.err.Some? then Err(s.err.value)
        else ReadAll(g, s.r, data[s.n..], src[1..])
  }

  /** The size of the buffer ParseFromReader starts with. */
  const BuffSize: nat := 8

  /** The buffer's size before a read: doubled when the `buf` bytes it holds fill it. */
  function Grown(buf: string, size: nat): nat {
    if |buf| >= size then 2 * size else size
  }

  /**
   * Whether every read of `src` fits the free space of ParseFromReader's
   * buffer, which holds the unconsumed `buf` in `size` bytes: before each
   * read the buffer is doubled if full, the read delivers at most the space
   * left, and dropping the consumed prefix keeps the size. ReadAll itself
   * does not bound a read; this predicate picks out the traces the source
   * can produce.
   */
  predicate ReadsFit(g: Guard, r: Req, buf: string, size: nat, src: seq<ReadOutcome>)
    decreases |src|
  {
    if r.state == Completed || |src| == 0 || src[0].Failure? then true
    else
      var data := buf + src[0].chunk;
      var s := ParseBuffer(g, r, data);
      && |data| <= Grown(buf, size)
      && (s.err.None? ==> ReadsFit(g, s.r, data[s.n..], Grown(buf, size), src[1..]))
  }

  /** ParseFromReader as written. */
  function ParseFromReader(src: seq<ReadOutcome>): Result<Req, ParseError> {
    ReadAll(AsWritten, Fresh, "", src)
  }

  /** ParseFromReader with the corrected parse. */
  function ParseFromReaderCorrected(src: seq<ReadOutcome>): Result<Req, ParseError> {
    ReadAll(Corrected, Fresh, "", src)
  }

  // ---------------------------------------------------------------------
  // Properties
  // ---------------------------------------------------------------------

  /** A step never moves the state backwards, and moves it at most one place. */
  lemma StepSingleForward(r: Req, data: string)
    ensures Rank(r.state) <= Rank(StepSingle(r, data).r.state) <= Rank(r.state) + 1
  {
  }

  /** The blank line ends the head, and nothing after it is read. */
  lemma BlankLineCompletes(r: Req, rest: string)
    requires r.state == ParsingHeaders
    ensures StepSingle(r, CRLF + rest) == Step(r.(state := Completed), 2, None)
  {
    H.ParseFieldFirstLine(r.headers, "", rest);
    assert "" + CRLF + rest == CRLF + rest;
  }

  /**
   * The invariant of a request between error-free steps: it is untouched
   * until its request line is parsed, and from then on the stored request
   * line is one the parser accepts.
   */
  predicate Valid(r: Req) {
    && (r.state == Initialized ==> r == Fresh)
    && (r.state != Initialized ==> RL.Acceptable(r.requestLine))
  }

  lemma StepSingleValid(r: Req, data: string)
    requires Valid(r)
    ensures Valid(StepSingle(r, data).r)
  {
  }

  lemma {:induction false} ParseRunValid(g: Guard, r: Req, rest: string, size: int)
    requires Valid(r)
    ensures Valid(ParseRun(g, r, rest, size).r)
    decreases |rest|
  {
    if r.state != Completed {
      var s := StepSingle(r, rest);
      StepSingleValid(r, rest);
      if s.err.None? && s.n != 0 {
        ParseRunValid(g, s.r, rest[s.n..], size);
      }
    }
  }

  lemma {:induction false} ReadAllValid(g: Guard, r: Req, buf: string, src: seq<ReadOutcome>)
    requires Valid(r)
    requires ReadAll(g, r, buf, src).Ok?
    ensures Valid(ReadAll(g, r, buf, src).value)
    decreases |src|
  {
    if r.state != Completed && |src| != 0 {
      var data := buf + src[0].chunk;
      var s := ParseBuffer(g, r, data);
      ParseRunValid(g, r, data, |data|);
      ReadAllValid(g, s.r, data[s.n..], src[1..]);
    }
  }

  /**
   * What ParseFromReader returns has been through no failed step: either it
   * is the untouched request (no request line arrived before the end of
   * input), or its request line is one the parser accepts.
   */
  lemma ParseFromReaderSound(g: Guard, src: seq<ReadOutcome>)
    requires ReadAll(g, Fresh, "", src).Ok?
    ensures var r := ReadAll(g, Fresh, "", src).value;
      r == Fresh || (r.state != Initialized && RL.Acceptable(r.requestLine))
  {
    ReadAllValid(g, Fresh, "", src);
  }

  /** The end of input ends the read loop without error, whatever state the request is in. */
  lemma EndOfInputIsSuccess(g: Guard, r: Req, buf: string)
    ensures ReadAll(g, r, buf, []) == Ok(r)
  {
  }

  /**
   * parse never runs a step in the Completed state, so it never reports
   * ParseInDoneState; and it never reports a read error, which only the
   * read loop produces.
   */
  lemma {:induction false} ParseRunNotDone(g: Guard, r: Req, rest: string, size: int)
    ensures ParseRun(g, r, rest, size).err != Some(ParseInDoneState)
    ensures ParseRun(g, r, rest, size).err.Some? ==> !ParseRun(g, r, rest, size).err.value.ReadFailed?
    decreases |rest|
  {
    if r.state != Completed {
      var s := StepSingle(r, rest);
      if s.err.None? && s.n != 0 {
        ParseRunNotDone(g, s.r, rest[s.n..], size);
      }
    }
  }

  /**
   * The errors of ParseFromReader. A failed read ends the loop with its
   * reason, unchanged; a failed parse ends it with the parse error; and a
   * read error it reports is the first failure in the source, behind reads
   * that all delivered bytes. The end of input is never an error.
   */
  lemma {:induction false} ReadAllErrors(g: Guard, r: Req, buf: string, src: seq<ReadOutcome>)
    ensures r.state != Completed && |src| != 0 && src[0].Failure? ==>
      ReadAll(g, r, buf, src) == Err(ReadFailed(src[0].reason))
    ensures r.state != Completed && |src| != 0 && src[0].Bytes? && ParseBuffer(g, r, buf + src[0].chunk).err.Some? ==>
      ReadAll(g, r, buf, src) == Err(ParseBuffer(g, r, buf + src[0].chunk).err.value)
    ensures ReadAll(g, r, buf, src).Err? ==> ReadAll(g, r, buf, src).error != ParseInDoneState
    ensures ReadAll(g, r, buf, src).Err? && ReadAll(g, r, buf, src).error.ReadFailed? ==>
      exists i :: 0 <= i < |src| && src[i] == Failure(ReadAll(g, r, buf, src).error.reason)
        && forall j :: 0 <= j < i ==> src[j].Bytes?
    decreases |src|
  {
    if r.state != Completed && |src| != 0 && src[0].Bytes? {
      var data := buf + src[0].chunk;
      ParseRunNotDone(g, r, data, |data|);
      var s := ParseBuffer(g, r, data);
      if s.err.None? {
        ReadAllErrors(g, s.r, data[s.n..], src[1..]);
        var e := ReadAll(g, r, buf, src);
        assert e == ReadAll(g, s.r, data[s.n..], src[1..]);
        if e.Err? && e.error.ReadFailed? {
          FirstFailureShifted(src, e.error.reason);
        }
      }
    } else if r.state != Completed && |src| != 0 {
      assert src[0] == Failure(src[0].reason);
    }
  }

  // ---------------------------------------------------------------------
  // The early return of parse
  // ---------------------------------------------------------------------

  /** Two field lines and the blank line, as a client sends the end of a head. */
  function Tail(k1: string, v1: string, k2: string, v2: string): string {
    H.FieldLine(k1, v1) + H.FieldLine(k2, v2) + CRLF
  }

  /** One step of parse that neither fails nor stops it: the rest is parsed after it. */
  lemma RunContinues(g: Guard, r: Req, rest: string, size: int, st: Step)
    requires r.state != Completed && StepSingle(r, rest) == st
    requires st.err.None? && 0 < st.n
    requires !(g == AsWritten && size - |rest| + st.n > |rest|)
    ensures ParseRun(g, r, rest, size) == Resumed(ParseRun(g, st.r, rest[st.n..], size), st.n)
  {
  }

  /** One step of parse after which it returns: the as-written early return, or a step that consumed nothing. */
  lemma RunStops(g: Guard, r: Req, rest: string, size: int, st: Step)
    requires r.state != Completed && StepSingle(r, rest) == st && st.err.None?
    requires (g == AsWritten && size - |rest| + st.n > |rest|) || st.n == 0
    ensures ParseRun(g, r, rest, size) == Step(st.r, st.n, None)
  {
  }

  /** A step that fails ends parse with its error, reporting no bytes. */
  lemma RunFails(g: Guard, r: Req, rest: string, size: int)
    requires r.state != Completed && StepSingle(r, rest).err.Some?
    ensures ParseRun(g, r, rest, size) == Step(r, 0, StepSingle(r, rest).err)
  {
  }

  /** parse on a complete request does nothing. */
  lemma RunCompleted(g: Guard, r: Req, rest: string, size: int)
    requires r.state == Completed
    ensures ParseRun(g, r, rest, size) == Step(r, 0, None)
  {
  }

  /** parse on the blank line alone completes the request and consumes it, with either guard. */
  lemma BlankLineRun(g: Guard, r: Req, size: int)
    requires r.state == ParsingHeaders
    ensures ParseRun(g, r, CRLF, size) == Step(r.(state := Completed), 2, None)
  {
    BlankLineCompletes(r, "");
    assert CRLF + "" == CRLF;
    assert CRLF[2..] == "";
    RunCompleted(g, r.(state := Completed), "", size);
  }

  /**
   * As written, parse stops after the second of two field lines even
   * though the blank line that completes the head is buffered behind
   * them: the running total (both lines) exceeds the length of the slice
   * the second step was given (the second line and the blank line).
   * The blank line is left unconsumed, and a step on it would complete.
   */
  lemma AsWrittenStopsEarly(r: Req, k1: string, v1: string, k2: string, v2: string)
    requires r.state == ParsingHeaders
    requires H.WellFormedKey(k1) && H.WellFormedValue(v1) && H.WellFormedKey(k2) && H.WellFormedValue(v2)
    ensures var f1 := H.FieldLine(k1, v1);
      var f2 := H.FieldLine(k2, v2);
      var r2 := r.(headers := H.Added(H.Added(r.headers, k1, v1), k2, v2));
      && ParseBuffer(AsWritten, r, Tail(k1, v1, k2, v2)) == Step(r2, |f1| + |f2|, None)
      && Tail(k1, v1, k2, v2)[|f1| + |f2|..] == CRLF
      && StepSingle(r2, CRLF) == Step(r2.(state := Completed), 2, None)
  {
    var f1 := H.FieldLine(k1, v1);
    var f2 := H.FieldLine(k2, v2);
    var data := Tail(k1, v1, k2, v2);
    var r1 := r.(headers := H.Added(r.headers, k1, v1));
    var r2 := r1.(headers := H.Added(r1.headers, k2, v2));
    TwoFieldSteps(r, k1, v1, k2, v2);
    var rest := data[|f1|..];
    RunContinues(AsWritten, r, data, |data|, Step(r1, |f1|, None));
    RunStops(AsWritten, r1, rest, |data|, Step(r2, |f2|, None));
    assert data[|f1| + |f2|..] == rest[|f2|..] == CRLF;
    BlankLineCompletes(r2, "");
    assert CRLF + "" == CRLF;
  }

  /** Without the early return, the same bytes complete the head and are all consumed. */
  lemma CorrectedCompletes(r: Req, k1: string, v1: string, k2: string, v2: string)
    requires r.state == ParsingHeaders
    requires H.WellFormedKey(k1) && H.WellFormedValue(v1) && H.WellFormedKey(k2) && H.WellFormedValue(v2)
    ensures var r2 := r.(headers := H.Added(H.Added(r.headers, k1, v1), k2, v2));
      ParseBuffer(Corrected, r, Tail(k1, v1, k2, v2)) == Step(r2.(state := Completed), |Tail(k1, v1, k2, v2)|, None)
  {
    var f1 := H.FieldLine(k1, v1);
    var f2 := H.FieldLine(k2, v2);
    var data := Tail(k1, v1, k2, v2);
    var r1 := r.(headers := H.Added(r.headers, k1, v1));
    var r2 := r1.(headers := H.Added(r1.headers, k2, v2));
    TwoFieldSteps(r, k1, v1, k2, v2);
    var rest := data[|f1|..];
    assert rest[|f2|..] == CRLF;
    BlankLineRun(Corrected, r2, |data|);
    RunContinues(Corrected, r1, rest, |data|, Step(r2, |f2|, None));
    RunContinues(Corrected, r, data, |data|, Step(r1, |f1|, None));
  }

  /** A field-line step that succeeds without ending the head: the step adds what Parse added and consumes what it consumed. */
  lemma HeaderStep(r: Req, data: string, p: H.Parsed)
    requires r.state == ParsingHeaders && H.ParseField(r.headers, data) == p && p.err.None? && !p.done
    ensures StepSingle(r, data) == Step(r.(headers := p.m), p.n, None)
  {
  }

  /** A well-formed field line in front of anything else is one step: the field is added and the line consumed. */
  lemma FieldStep(r: Req, k: string, v: string, rest: string)
    requires r.state == ParsingHeaders && H.WellFormedKey(k) && H.WellFormedValue(v)
    ensures StepSingle(r, H.FieldLine(k, v) + rest) == Step(r.(headers := H.Added(r.headers, k, v)), |H.FieldLine(k, v)|, None)
  {
    H.ParseFieldLineRoundTrip(r.headers, k, v, rest);
    HeaderStep(r, H.FieldLine(k, v) + rest, H.Parsed(H.Added(r.headers, k, v), |H.FieldLine(k, v)|, false, None));
  }

  /** The two field-line steps on Tail: each adds its field and consumes its line. */
  lemma TwoFieldSteps(r: Req, k1: string, v1: string, k2: string, v2: string)
    requires r.state == ParsingHeaders
    requires H.WellFormedKey(k1) && H.WellFormedValue(v1) && H.WellFormedKey(k2) && H.WellFormedValue(v2)
    ensures var f1 := H.FieldLine(k1, v1);
      var f2 := H.FieldLine(k2, v2);
      var data := Tail(k1, v1, k2, v2);
      var r1 := r.(headers := H.Added(r.headers, k1, v1));
      && |f1| > 2 && |f1| + |f2| + 2 == |data|
      && data[|f1|..] == f2 + CRLF
      && StepSingle(r, data) == Step(r1, |f1|, None)
      && StepSingle(r1, f2 + CRLF) == Step(r1.(headers := H.Added(r1.headers, k2, v2)), |f2|, None)
  {
    var f1 := H.FieldLine(k1, v1);
    var f2 := H.FieldLine(k2, v2);
    assert Tail(k1, v1, k2, v2) == f1 + (f2 + CRLF);
    FieldStep(r, k1, v1, f2 + CRLF);
    FieldStep(r.(headers := H.Added(r.headers, k1, v1)), k2, v2, CRLF);
    assert |f1| == |k1| + 2 + |v1| + 2;
  }

  /**
   * End to end, on reads the source's buffer can deliver: the request line
   * over two reads of at most BuffSize bytes each (the first fills the
   * buffer, the second goes into the doubled one), then the rest of the head
   * in a third read. As written, ParseFromReader reaches the end of input
   * with the blank line still buffered and returns a request that is not
   * complete (on a connection that stays open, the next Read waits for bytes
   * the client will not send).
   */
  lemma ReadStopsShort(rl: RL.RequestLine, k1: string, v1: string, k2: string, v2: string)
    requires RL.Acceptable(rl) && !Contains(RL.Format(rl), CRLF) && |RL.Format(rl)| + 2 <= 2 * BuffSize
    requires H.WellFormedKey(k1) && H.WellFormedValue(v1) && H.WellFormedKey(k2) && H.WellFormedValue(v2)
    requires |Tail(k1, v1, k2, v2)| <= 2 * BuffSize
    ensures var line := RL.Format(rl) + CRLF;
      var src := [Bytes(line[..BuffSize]), Bytes(line[BuffSize..]), Bytes(Tail(k1, v1, k2, v2))];
      && ReadsFit(AsWritten, Fresh, "", BuffSize, src)
      && ParseFromReader(src) == Ok(Req(rl, H.Added(H.Added(map[], k1, v1), k2, v2), ParsingHeaders))
  {
    var r0 := Req(rl, map[], ParsingHeaders);
    AsWrittenStopsEarly(r0, k1, v1, k2, v2);
    ThreeReads(AsWritten, rl, Tail(k1, v1, k2, v2));
  }

  /** The same three reads, with the corrected parse: the request is complete. */
  lemma ReadCompletesCorrected(rl: RL.RequestLine, k1: string, v1: string, k2: string, v2: string)
    requires RL.Acceptable(rl) && !Contains(RL.Format(rl), CRLF) && |RL.Format(rl)| + 2 <= 2 * BuffSize
    requires H.WellFormedKey(k1) && H.WellFormedValue(v1) && H.WellFormedKey(k2) && H.WellFormedValue(v2)
    requires |Tail(k1, v1, k2, v2)| <= 2 * BuffSize
    ensures var line := RL.Format(rl) + CRLF;
      var src := [Bytes(line[..BuffSize]), Bytes(line[BuffSize..]), Bytes(Tail(k1, v1, k2, v2))];
      && ReadsFit(Corrected, Fresh, "", BuffSize, src)
      && ParseFromReaderCorrected(src) == Ok(Req(rl, H.Added(H.Added(map[], k1, v1), k2, v2), Completed))
  {
    var r0 := Req(rl, map[], ParsingHeaders);
    CorrectedCompletes(r0, k1, v1, k2, v2);
    ThreeReads(Corrected, rl, Tail(k1, v1, k2, v2));
  }

  /**
   * A request line split after its first BuffSize bytes, then `tail`: the
   * first read leaves the line buffered, the second completes and consumes
   * it, and the loop ends, at the latest at the end of input, with the
   * request that parse on `tail` left. Each read fits the buffer.
   */
  lemma ThreeReads(g: Guard, rl: RL.RequestLine, tail: string)
    requires RL.Acceptable(rl) && !Contains(RL.Format(rl), CRLF) && |RL.Format(rl)| + 2 <= 2 * BuffSize
    requires |tail| <= 2 * BuffSize && ParseBuffer(g, Req(rl, map[], ParsingHeaders), tail).err.None?
    ensures var line := RL.Format(rl) + CRLF;
      var src := [Bytes(line[..BuffSize]), Bytes(line[BuffSize..]), Bytes(tail)];
      && ReadsFit(g, Fresh, "", BuffSize, src)
      && ReadAll(g, Fresh, "", src) == Ok(ParseBuffer(g, Req(rl, map[], ParsingHeaders), tail).r)
  {
    var line := RL.Format(rl) + CRLF;
    var r0 := Req(rl, map[], ParsingHeaders);
    var rest := [Bytes(tail)];
    LineOverTwoReads(g, rl, rest);
    assert [Bytes(line[..BuffSize]), Bytes(line[BuffSize..])] + rest == [Bytes(line[..BuffSize]), Bytes(line[BuffSize..]), Bytes(tail)];
    var st := ParseBuffer(g, r0, tail);
    assert "" + tail == tail;
    ReadContinues(g, r0, "", rest, st);
    FitsContinues(g, r0, "", 2 * BuffSize, rest, st);
  }

  /**
   * The request line over two reads, the first of BuffSize bytes: the loop
   * goes on with the line stored, nothing buffered and the buffer doubled,
   * and the two reads fit the buffer.
   */
  lemma LineOverTwoReads(g: Guard, rl: RL.RequestLine, rest: seq<ReadOutcome>)
    requires RL.Acceptable(rl) && !Contains(RL.Format(rl), CRLF) && |RL.Format(rl)| + 2 <= 2 * BuffSize
    ensures var line := RL.Format(rl) + CRLF;
      var src := [Bytes(line[..BuffSize]), Bytes(line[BuffSize..])] + rest;
      var r0 := Req(rl, map[], ParsingHeaders);
      && ReadAll(g, Fresh, "", src) == ReadAll(g, r0, "", rest)
      && (ReadsFit(g, Fresh, "", BuffSize, src) <==> ReadsFit(g, r0, "", 2 * BuffSize, rest))
  {
    var text := RL.Format(rl);
    var line := text + CRLF;
    var r0 := Req(rl, map[], ParsingHeaders);
    var head := line[..BuffSize];
    var src := [Bytes(head), Bytes(line[BuffSize..])] + rest;
    assert |"HTTP/" + rl.httpVersion| == 8;
    // First read: the first BuffSize bytes of the line, no CRLF yet, nothing consumed.
    FirstBytesWait(g, text, head);
    assert ("" + head)[0..] == head;
    ReadContinues(g, Fresh, "", src, Step(Fresh, 0, None));
    FitsContinues(g, Fresh, "", BuffSize, src, Step(Fresh, 0, None));
    // Second read: the rest of the line, parsed whole.
    assert head + line[BuffSize..] == line;
    assert src[1..][1..] == rest;
    LineFirst(rl);
    assert "" + line == line;
    ReadContinues(g, Fresh, head, src[1..], Step(r0, |line|, None));
    FitsContinues(g, Fresh, head, BuffSize, src[1..], Step(r0, |line|, None));
    assert line[|line|..] == "";
  }

  /** The first BuffSize bytes of a request line hold no CRLF: parse waits without consuming. */
  lemma FirstBytesWait(g: Guard, text: string, head: string)
    requires !Contains(text, CRLF) && BuffSize < |text| + 2 && head == (text + CRLF)[..BuffSize]
    ensures ParseBuffer(g, Fresh, "" + head) == Step(Fresh, 0, None)
  {
    assert text + CRLF == text + CRLF + "";
    RL.ParseRequestLinePartial(text, "", BuffSize);
    assert "" + head == head;
    assert StepSingle(Fresh, head) == Step(Fresh, 0, None);
    RunStops(g, Fresh, head, |head|, Step(Fresh, 0, None));
  }

  /** One read whose bytes parse without error: the loop goes on with what parse left unconsumed. */
  lemma ReadContinues(g: Guard, r: Req, buf: string, src: seq<ReadOutcome>, st: Step)
    requires r.state != Completed && |src| > 0 && src[0].Bytes?
    requires ParseBuffer(g, r, buf + src[0].chunk) == st && st.err.None?
    ensures ReadAll(g, r, buf, src) == ReadAll(g, st.r, (buf + src[0].chunk)[st.n..], src[1..])
  {
  }

  /** One read whose bytes parse without error fits when it fits the grown buffer and the reads after it fit. */
  lemma FitsContinues(g: Guard, r: Req, buf: string, size: nat, src: seq<ReadOutcome>, st: Step)
    requires r.state != Completed && |src| > 0 && src[0].Bytes?
    requires ParseBuffer(g, r, buf + src[0].chunk) == st && st.err.None?
    ensures ReadsFit(g, r, buf, size, src) <==>
      |buf + src[0].chunk| <= Grown(buf, size) && ReadsFit(g, st.r, (buf + src[0].chunk)[st.n..], Grown(buf, size), src[1..])
  {
  }

  /** A request line read on its own is parsed whole, by either parse. */
  lemma LineFirst(rl: RL.RequestLine)
    requires RL.Acceptable(rl) && !Contains(RL.Format(rl), CRLF)
    ensures var line := RL.Format(rl) + CRLF;
      && ("" + line)[|line|..] == ""
      && ParseBuffer(AsWritten, Fresh, "" + line) == Step(Req(rl, map[], ParsingHeaders), |line|, None)
      && ParseBuffer(Corrected, Fresh, "" + line) == Step(Req(rl, map[], ParsingHeaders), |line|, None)
  {
    var line := RL.Format(rl) + CRLF;
    var r1 := Req(rl, map[], ParsingHeaders);
    assert "" + line == line;
    LineStep(rl);
    assert line[|line|..] == "";
    NothingBuffered(r1);
    RunContinues(AsWritten, Fresh, line, |line|, Step(r1, |line|, None));
    RunStops(AsWritten, r1, "", |line|, Step(r1, 0, None));
    RunContinues(Corrected, Fresh, line, |line|, Step(r1, |line|, None));
    RunStops(Corrected, r1, "", |line|, Step(r1, 0, None));
  }

  /** The step on an acceptable request line and its CRLF stores the line and consumes both. */
  lemma LineStep(rl: RL.RequestLine)
    requires RL.Acceptable(rl) && !Contains(RL.Format(rl), CRLF)
    ensures StepSingle(Fresh, RL.Format(rl) + CRLF) == Step(Req(rl, map[], ParsingHeaders), |RL.Format(rl)| + 2, None)
  {
    var text := RL.Format(rl);
    assert text + CRLF == text + CRLF + "";
    RL.ParseRequestLineFirstLine(text, "");
    RL.ParseLineTextExactly(text, rl);
  }

  /** Waiting for field lines with nothing buffered consumes nothing. */
  lemma NothingBuffered(r: Req)
    requires r.state == ParsingHeaders
    ensures StepSingle(r, "") == Step(r, 0, None)
  {
    H.ParseFieldConsumesOneLine(r.headers, "");
  }

  // ---------------------------------------------------------------------
  // The object the source mutates
  // ---------------------------------------------------------------------

  class Request {
    var requestLine: RL.RequestLine
    const headers: H.Headers
    var state: State

    function Model(): Req
      reads this, headers
    {
      Req(requestLine, headers.m, state)
    }

    constructor ()
      ensures Model() == Fresh
      ensures fresh(headers)
    {
      requestLine := RL.RequestLine("", "", "");
      headers := new H.Headers();
      state := Initialized;
    }

    method ParseRequestLine(data: string) returns (n: nat, err: Option<ParseError>)
      modifies this
      ensures match RL.ParseRequestLine(data)
        case NeedMore => n == 0 && err == None && Model() == old(Model())
        case LineFailed(e) => n == 0 && err == Some(Line(e)) && Model() == old(Model())
        case LineParsed(rl, k) => n == k && err == None && Model() == old(Model()).(requestLine := rl)
    {
      var step := RL.ParseLine(data);
      match step
      case NeedMore =>
        return 0, None;
      case LineFailed(e) =>
        return 0, Some(Line(e));
      case LineParsed(rl, k) =>
        requestLine := rl;
        return k, None;
    }

    method ParseSingle(data: string) returns (n: nat, err: Option<ParseError>)
      modifies this, headers
      ensures Step(Model(), n, err) == StepSingle(old(Model()), data)
    {
      match state
      case Initialized =>
        var k, e := ParseRequestLine(data);
        if e.Some? {
          return 0, e;
        }
        if k == 0 {
          return 0, None;
        }
        RL.ParseRequestLineParsed(data);
        state := ParsingHeaders;
        return k, None;
      case ParsingHeaders =>
        var k, done, e := headers.Parse(data);
        if e.Some? {
          return 0, Some(Header(e.value));
        }
        if done {
          state := Completed;
        }
        return k, None;
      case Completed =>
        return 0, Some(ParseInDoneState);
    }

    /** parse, with its early returns as written. */
    method Parse(data: string) returns (n: nat, err: Option<ParseError>)
      modifies this, headers
      ensures Step(Model(), n, err) == ParseBuffer(AsWritten, old(Model()), data)
    {
      var totalBytesParsed := 0;
      while state != Completed
        invariant totalBytesParsed <= |data|
        invariant ParseBuffer(AsWritten, old(Model()), data) == Resumed(ParseRun(AsWritten, Model(), data[totalBytesParsed..], |data|), totalBytesParsed)
        decreases |data| - totalBytesParsed
      {
        ghost var before := Model();
        ghost var consumed := totalBytesParsed;
        var toBeParsed := data[totalBytesParsed..];
        var numBytesParsed, e := ParseSingle(toBeParsed);
        totalBytesParsed := totalBytesParsed + numBytesParsed;
        if e.Some? {
          RunFails(AsWritten, before, toBeParsed, |data|);
          return 0, e;
        }
        if totalBytesParsed > |toBeParsed| {
          RunStops(AsWritten, before, toBeParsed, |data|, Step(Model(), numBytesParsed, e));
          return totalBytesParsed, None;
        }
        if numBytesParsed == 0 {
          RunStops(AsWritten, before, toBeParsed, |data|, Step(Model(), numBytesParsed, e));
          return totalBytesParsed, None;
        }
        RunContinues(AsWritten, before, toBeParsed, |data|, Step(Model(), numBytesParsed, e));
        DropDrop(data, consumed, numBytesParsed);
        ghost var after := ParseRun(AsWritten, Model(), data[totalBytesParsed..], |data|);
        assert ParseRun(AsWritten, before, toBeParsed, |data|) == Resumed(after, numBytesParsed);
        ResumedTwice(after, numBytesParsed, consumed);
      }
      RunCompleted(AsWritten, Model(), data[totalBytesParsed..], |data|);
      return totalBytesParsed, None;
    }
  }

  /** ParseFromReader: read, parse, keep the unconsumed bytes, until complete or the end of input. */
  method ReadRequest(src: seq<ReadOutcome>) returns (request: Request?, err: Option<ParseError>)
    ensures match ParseFromReader(src)
      case Ok(r) => request != null && err == None && request.Model() == r
      case Err(e) => request == null && err == Some(e)
  {
    var req := new Request();
    var buff := "";
    var i := 0;
    while req.state != Completed
      invariant 0 <= i <= |src|
      invariant fresh(req) && fresh(req.headers)
      invariant ReadAll(AsWritten, req.Model(), buff, src[i..]) == ParseFromReader(src)
      decreases |src| - i
    {
      if i == |src| {
        break;
      }
      match src[i]
      case Failure(reason) =>
        return null, Some(ReadFailed(reason));
      case Bytes(chunk) =>
        buff := buff + chunk;
        var numBytesParsed, e := req.Parse(buff);
        if e.Some? {
          return null, e;
        }
        buff := buff[numBytesParsed..];
        i := i + 1;
    }
    return req, None;
  }
}
