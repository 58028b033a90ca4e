/**
 * How the pihttp request parser behaves when the bytes of one well-formed
 * request arrive in arbitrary pieces. For a request whose head is
 * followed by exactly the Content-Length bytes of body (or, without a
 * Content-Length, by nothing), ParseFromReader returns the same request
 * whichever way the connection splits those bytes into reads.
 *
 * The wire form is a list of head segments (the request line, one line
 * per field, the blank line) followed by the body. A reader that has
 * received some prefix of it stands "settled" in one segment, holding the
 * part of that segment it has received so far, or in the body.
 */
module PiRequestChunking {
  import opened Wrappers
  import opened Text
  import H = Headers
  import RL = RequestLine
  import opened PiRequest
  import opened Source

  /** A request as a client writes it: the request line, the field lines in order, the body. */
  datatype Message = Message(line: RL.RequestLine, fields: seq<(string, string)>, body: string)

  /** The header map the field lines build. */
  function Fields(msg: Message): H.HeaderMap {
    H.AddAll(map[], msg.fields)
  }

  /** The memo of the declared Content-Length, once the body is being read. */
  function Memo(msg: Message): Option<int> {
    match DeclaredLength(Fields(msg))
    case Ok(cl) => cl
    case Err(_) => None
  }

  /**
   * A request the parser accepts and reads to its end: an acceptable request
   * line, field lines with well-formed names and values, and a body exactly
   * as long as the declared Content-Length, or empty without one.
   */
  predicate WellFormed(msg: Message) {
    LineOk(msg) && FieldsOk(msg) && BodyOk(msg)
  }

  /** The request line is one the parser accepts, on a line of its own. */
  predicate LineOk(msg: Message) {
    RL.Acceptable(msg.line) && !Contains(RL.Format(msg.line), CRLF)
  }

  /** Field `i` has a well-formed name and value. */
  predicate FieldOk(msg: Message, i: nat)
    requires i < |msg.fields|
  {
    H.WellFormedKey(msg.fields[i].0) && H.WellFormedValue(msg.fields[i].1)
  }

  predicate FieldsOk(msg: Message) {
    forall i :: 0 <= i < |msg.fields| ==> FieldOk(msg, i)
  }

  /** The body is exactly as long as the declared Content-Length, or empty without one. */
  predicate BodyOk(msg: Message) {
    match DeclaredLength(Fields(msg))
    case Ok(None) => msg.body == ""
    case Ok(Some(k)) => |msg.body| == k
    case Err(_) => false
  }

  /** Head segment `j`: 0 is the request line, 1 to |fields| the field lines, then the blank line. */
  function Segment(msg: Message, j: nat): (seg: string)
    ensures |seg| >= 2
  {
    if j == 0 then RL.Format(msg.line) + CRLF
    else if j <= |msg.fields| then H.FieldLine(msg.fields[j - 1].0, msg.fields[j - 1].1)
    else CRLF
  }

  /** The number of head segments. */
  function Last(msg: Message): nat {
    |msg.fields| + 2
  }

  /** The request ParseFromReader should return. */
  function Parsed(msg: Message): Req {
    Req(msg.line, Fields(msg), msg.body, Completed, Memo(msg))
  }

  /** The request the parser holds when segment `j` is next. */
  function Before(msg: Message, j: nat): Req {
    if j == 0 then Fresh
    else if j < Last(msg) then Req(msg.line, H.AddAll(map[], msg.fields[..j - 1]), "", ParsingHeaders, None)
    else Req(msg.line, Fields(msg), "", ParsingBody, None)
  }

  /** The reads that deliver `chunks` in order. */
  function Feed(chunks: seq<string>): seq<ReadOutcome> {
    if |chunks| == 0 then [] else [Bytes(chunks[0])] + Feed(chunks[1..])
  }

  // ---------------------------------------------------------------------
  // One segment
  // ---------------------------------------------------------------------

  /** The request line and its CRLF, followed by anything, are consumed in one step. */
  lemma LineSegmentStep(msg: Message, rest: string)
    requires LineOk(msg)
    ensures StepSingle(Before(msg, 0), Segment(msg, 0) + rest) == Step(Before(msg, 1), |Segment(msg, 0)|, None)
  {
    var text := RL.Format(msg.line);
    RL.ParseRequestLineFirstLine(text, rest);
    RL.ParseLineTextExactly(text, msg.line);
    assert msg.fields[..0] == [];
  }

  /** In the header state, a field line that parses adds what it parses to. */
  lemma FieldLineStep(r: Req, data: string, m: H.HeaderMap, n: nat)
    requires r.state == ParsingHeaders && H.ParseField(r.headers, data) == H.Parsed(m, n, false, None)
    ensures StepHeaders(r, data) == Step(r.(headers := m), n, None)
  {
  }

  /** In the header state a step is a header step. */
  lemma SingleInHeaders(r: Req, data: string)
    requires r.state == ParsingHeaders
    ensures StepSingle(r, data) == StepHeaders(r, data)
  {
  }

  /** The fields up to `j` are those up to `j - 1` and then field `j - 1`. */
  lemma AddAllSnoc(fields: seq<(string, string)>, j: nat)
    requires 1 <= j <= |fields|
    ensures H.AddAll(map[], fields[..j]) == H.Added(H.AddAll(map[], fields[..j - 1]), fields[j - 1].0, fields[j - 1].1)
  {
    assert fields[..j][..j - 1] == fields[..j - 1];
  }

  /** Field line `j`, followed by anything, parses to the fields up to it. */
  lemma FieldParses(msg: Message, j: nat, rest: string)
    requires 1 <= j <= |msg.fields| && FieldOk(msg, j - 1)
    ensures H.ParseField(H.AddAll(map[], msg.fields[..j - 1]), Segment(msg, j) + rest) ==
      H.Parsed(H.AddAll(map[], msg.fields[..j]), |Segment(msg, j)|, false, None)
  {
    var (key, val) := msg.fields[j - 1];
    H.ParseFieldLineRoundTrip(H.AddAll(map[], msg.fields[..j - 1]), key, val, rest);
    AddAllSnoc(msg.fields, j);
  }

  /** A field line, followed by anything, adds its field and is consumed in one step. */
  lemma FieldSegmentStep(msg: Message, j: nat, rest: string)
    requires 1 <= j <= |msg.fields| && FieldOk(msg, j - 1)
    ensures StepHeaders(Before(msg, j), Segment(msg, j) + rest) == Step(Before(msg, j + 1), |Segment(msg, j)|, None)
  {
    FieldParses(msg, j, rest);
    FieldLineStep(Before(msg, j), Segment(msg, j) + rest, H.AddAll(map[], msg.fields[..j]), |Segment(msg, j)|);
  }

  /** The blank line, followed by anything, ends the head in one step. */
  lemma BlankSegmentStep(msg: Message, rest: string)
    ensures var j := Last(msg) - 1;
      StepSingle(Before(msg, j), Segment(msg, j) + rest) == Step(Before(msg, j + 1), 2, None)
  {
    var m := H.AddAll(map[], msg.fields[..|msg.fields|]);
    H.ParseFieldFirstLine(m, "", rest);
    assert "" + CRLF + rest == CRLF + rest;
    assert msg.fields[..|msg.fields|] == msg.fields;
  }

  /** A whole head segment moves the parser to the next one. */
  lemma SegmentStep(msg: Message, j: nat, rest: string)
    requires WellFormed(msg) && j < Last(msg)
    ensures StepSingle(Before(msg, j), Segment(msg, j) + rest) == Step(Before(msg, j + 1), |Segment(msg, j)|, None)
  {
    if j == 0 {
      LineSegmentStep(msg, rest);
    } else if j <= |msg.fields| {
      FieldSegmentStep(msg, j, rest);
      SingleInHeaders(Before(msg, j), Segment(msg, j) + rest);
    } else {
      BlankSegmentStep(msg, rest);
    }
  }

  /** A proper prefix of the request line leaves the parser where it was. */
  lemma LinePartial(msg: Message, k: nat)
    requires LineOk(msg) && k < |Segment(msg, 0)|
    ensures StepSingle(Before(msg, 0), Segment(msg, 0)[..k]) == Step(Before(msg, 0), 0, None)
  {
    var text := RL.Format(msg.line);
    assert text + CRLF + "" == Segment(msg, 0);
    RL.ParseRequestLinePartial(text, "", k);
  }

  /** A proper prefix of a field line leaves the parser where it was. */
  lemma FieldPartial(msg: Message, j: nat, k: nat)
    requires 1 <= j <= |msg.fields| && FieldOk(msg, j - 1) && k < |Segment(msg, j)|
    ensures StepSingle(Before(msg, j), Segment(msg, j)[..k]) == Step(Before(msg, j), 0, None)
  {
    var (key, val) := msg.fields[j - 1];
    H.NoCRLFInFieldLine(key, val);
    assert key + ": " + val + CRLF + "" == Segment(msg, j);
    H.ParseFieldPartial(H.AddAll(map[], msg.fields[..j - 1]), key + ": " + val, "", k);
  }

  /** A proper prefix of the blank line leaves the parser where it was. */
  lemma BlankPartial(msg: Message, k: nat)
    requires k < 2
    ensures var j := Last(msg) - 1;
      StepSingle(Before(msg, j), Segment(msg, j)[..k]) == Step(Before(msg, j), 0, None)
  {
    assert "" + CRLF + "" == CRLF;
    H.ParseFieldPartial(H.AddAll(map[], msg.fields[..|msg.fields|]), "", "", k);
  }

  /** A proper prefix of a head segment leaves the parser where it was. */
  lemma SegmentPartial(msg: Message, j: nat, k: nat)
    requires WellFormed(msg) && j < Last(msg) && k < |Segment(msg, j)|
    ensures StepSingle(Before(msg, j), Segment(msg, j)[..k]) == Step(Before(msg, j), 0, None)
  {
    if j == 0 {
      LinePartial(msg, k);
    } else if j <= |msg.fields| {
      FieldPartial(msg, j, k);
    } else {
      BlankPartial(msg, k);
    }
  }

  // ---------------------------------------------------------------------
  // A wire form and the requests held along it
  // ---------------------------------------------------------------------

  /** Bytes laid out as head segments followed by a body, with the Content-Length memo the head yields. */
  datatype Layout = Layout(segs: seq<string>, body: string, memo: Option<int>)

  /** The bytes from segment `j` on: the remaining segments, then the body. */
  function From(l: Layout, j: nat): string
    decreases |l.segs| - j
  {
    if j >= |l.segs| then l.body else l.segs[j] + From(l, j + 1)
  }

  /** A reader position: inside head segment `j` with `k` of its bytes held, or `k` bytes into the body. */
  predicate Settled(l: Layout, j: nat, k: nat) {
    && j <= |l.segs|
    && k <= |From(l, j)|
    && (j < |l.segs| ==> k < |l.segs[j]|)
  }

  /** Where a reader stands after the first `k` bytes of From(l, j). */
  function Settle(l: Layout, j: nat, k: nat): (p: (nat, nat))
    ensures j <= |l.segs| && k <= |From(l, j)| ==> j <= p.0 && Settled(l, p.0, p.1)
    decreases |l.segs| - j
  {
    if j < |l.segs| && k >= |l.segs[j]| then Settle(l, j + 1, k - |l.segs[j]|) else (j, k)
  }

  /** The bytes buffered but not consumed at a settled position. */
  function Buffered(l: Layout, p: (nat, nat)): string {
    if p.0 < |l.segs| && p.1 <= |From(l, p.0)| then From(l, p.0)[..p.1] else ""
  }

  /** The request held `k` bytes into the body, from `r` as the head left it. */
  function BodyAt(r: Req, l: Layout, k: nat): Req
    requires k <= |l.body|
  {
    r.(body := l.body[..k], state := if k == |l.body| then Completed else ParsingBody, contentLength := l.memo)
  }

  /** The request held at a position, given the requests `st` held before each segment and after the head. */
  function Between(l: Layout, st: seq<Req>, p: (nat, nat)): Req
    requires |st| == |l.segs| + 1
  {
    if p.0 < |l.segs| then st[p.0]
    else if p.1 <= |l.body| then BodyAt(st[|l.segs|], l, p.1)
    else st[|l.segs|]
  }

  /** The request held once the whole layout is in. */
  function Final(l: Layout, st: seq<Req>): Req
    requires |st| == |l.segs| + 1
  {
    BodyAt(st[|l.segs|], l, |l.body|)
  }

  // ---------------------------------------------------------------------
  // parse and the read loop, for any single step
  // ---------------------------------------------------------------------

  /** A function with the shape of parseSingle: from a request and the unconsumed bytes, one step. */
  type Single = (Req, string) -> Step

  /** parse, with `single` taking each step; for parseSingle itself this is StepAll. */
  function ParseBy(single: Single, r: Req, data: string): (s: Step)
    ensures s.n <= |data|
    decreases |data|
  {
    if r.state == Completed then Step(r, 0, None)
    else
      var s := single(r, data);
      if s.err.Some? then Step(s.r, 0, s.err)
      else if s.n > |data| then Step(s.r, 0, None)
      else if |data| == 0 || s.n == 0 then Step(s.r, s.n, None)
      else
        var t := ParseBy(single, s.r, data[s.n..]);
        if t.err.Some? then t else Step(t.r, s.n + t.n, None)
  }

  /** The read loop, with `single` taking each step; for parseSingle itself this is ReadAll. */
  function ReadBy(single: Single, r: Req, buf: string, src: seq<ReadOutcome>): Result<Req, ParseError>
    decreases |src|
  {
    if r.state == Completed then Ok(r)
    else if |src| == 0 then Err(Incomplete(r.state))
    else
      match src[0]
      case Failure(reason) => Err(ReadFailed(reason))
      case Bytes(chunk) =>
        var data := buf + chunk;
        var s := ParseBy(single, r, data);
        if s.err.Some? then Err(s.err.value)
        else ReadBy(single, s.r, data[s.n..], src[1..])
  }

  /** parse is parse with parseSingle taking each step. */
  lemma {:induction false} ParseIsParseBy(r: Req, data: string)
    ensures StepAll(r, data) == ParseBy(StepSingle, r, data)
    decreases |data|
  {
    if r.state != Completed {
      var s := StepSingle(r, data);
      if s.err.None? && |data| != 0 && s.n != 0 {
        ParseIsParseBy(s.r, data[s.n..]);
      }
    }
  }

  /** The read loop is the read loop with parseSingle taking each step. */
  lemma {:induction false} ReadAllIsReadBy(r: Req, buf: string, src: seq<ReadOutcome>)
    ensures ReadAll(r, buf, src) == ReadBy(StepSingle, r, buf, src)
    decreases |src|
  {
    if r.state != Completed && |src| > 0 && src[0].Bytes? {
      var data := buf + src[0].chunk;
      ParseIsParseBy(r, data);
      var s := StepAll(r, data);
      if s.err.None? {
        ReadAllIsReadBy(s.r, data[s.n..], src[1..]);
      }
    }
  }

  // ---------------------------------------------------------------------
  // How a step walks a layout
  // ---------------------------------------------------------------------

  /** Each whole segment, followed by anything, takes one step from the request before it to the next. */
  ghost predicate SegmentsStep(single: Single, l: Layout, st: seq<Req>)
    requires |st| == |l.segs| + 1
  {
    forall i, rest {:trigger single(st[i], l.segs[i] + rest)} :: 0 <= i < |l.segs| ==>
      single(st[i], l.segs[i] + rest) == Step(st[i + 1], |l.segs[i]|, None)
  }

  /** Each proper prefix of a segment leaves the request before it unchanged. */
  ghost predicate PrefixesWait(single: Single, l: Layout, st: seq<Req>)
    requires |st| == |l.segs| + 1
  {
    forall i, k {:trigger single(st[i], l.segs[i][..k])} :: 0 <= i < |l.segs| && 0 <= k < |l.segs[i]| ==>
      single(st[i], l.segs[i][..k]) == Step(st[i], 0, None)
  }

  /** Right after the head, one step takes the first `k` body bytes, whatever `k` is. */
  ghost predicate BodyEnters(single: Single, l: Layout, st: seq<Req>)
    requires |st| == |l.segs| + 1
  {
    forall k {:trigger single(st[|l.segs|], l.body[..k])} :: 0 <= k <= |l.body| ==>
      single(st[|l.segs|], l.body[..k]) == Step(BodyAt(st[|l.segs|], l, k), k, None)
  }

  /** Inside the body, one step takes the next bytes of it, as many as have come. */
  ghost predicate BodyGrows(single: Single, l: Layout, st: seq<Req>)
    requires |st| == |l.segs| + 1
  {
    forall k, c {:trigger single(BodyAt(st[|l.segs|], l, k), c)} ::
      0 <= k < |l.body| && k + |c| <= |l.body| && l.body[k..k + |c|] == c ==>
      single(BodyAt(st[|l.segs|], l, k), c) == Step(BodyAt(st[|l.segs|], l, k + |c|), |c|, None)
  }

  /** How `single` walks a layout: segment by segment through the head, then into the body. */
  ghost predicate Plan(single: Single, l: Layout, st: seq<Req>) {
    && |st| == |l.segs| + 1
    && (forall i :: 0 <= i < |l.segs| ==> |l.segs[i]| > 0)
    && (forall i :: 0 <= i <= |l.segs| ==> st[i].state != Completed)
    && SegmentsStep(single, l, st)
    && PrefixesWait(single, l, st)
    && BodyEnters(single, l, st)
    && BodyGrows(single, l, st)
  }

  // ---------------------------------------------------------------------
  // Steps
  // ---------------------------------------------------------------------

  /** parse goes on after a step that consumed bytes. */
  lemma GoesOn(single: Single, r: Req, data: string, r1: Req, n: nat, rest: string)
    requires r.state != Completed && single(r, data) == Step(r1, n, None) && 0 < n <= |data| && data[n..] == rest
    ensures ParseBy(single, r, data) == Resumed(ParseBy(single, r1, rest), n)
  {
  }

  /** parse stops after a step that consumed nothing. */
  lemma Stops(single: Single, r: Req, data: string, r1: Req)
    requires r.state != Completed && single(r, data) == Step(r1, 0, None)
    ensures ParseBy(single, r, data) == Step(r1, 0, None)
  {
  }

  /** Where parse leaves the parser and the bytes it did not consume, unless it failed. */
  function Landing(s: Step, data: string): Option<(Req, string)> {
    if s.err == None && s.n <= |data| then Some((s.r, data[s.n..])) else None
  }

  /** parse, from `r` on `data`, ends in `r1` with `rest` left over. */
  predicate StepsTo(single: Single, r: Req, data: string, r1: Req, rest: string) {
    Landing(ParseBy(single, r, data), data) == Some((r1, rest))
  }

  /** Inside the body, one step takes the next bytes of it. */
  lemma Grow(single: Single, l: Layout, st: seq<Req>, k: nat, c: string)
    requires Plan(single, l, st) && k < |l.body| && k + |c| <= |l.body| && l.body[k..k + |c|] == c
    ensures single(BodyAt(st[|l.segs|], l, k), c) == Step(BodyAt(st[|l.segs|], l, k + |c|), |c|, None)
  {
  }

  /** Parsing no bytes inside the body changes nothing. */
  lemma Idle(single: Single, l: Layout, st: seq<Req>, k: nat)
    requires Plan(single, l, st) && k <= |l.body|
    ensures ParseBy(single, BodyAt(st[|l.segs|], l, k), "") == Step(BodyAt(st[|l.segs|], l, k), 0, None)
  {
    var b := BodyAt(st[|l.segs|], l, k);
    if k < |l.body| {
      assert l.body[k..k + |""|] == "";
      Grow(single, l, st, k, "");
      Stops(single, b, "", b);
    }
  }

  /** A step that consumes all of `data`, from a request that then takes nothing more, is a whole run. */
  lemma WholeRun(single: Single, r: Req, data: string, r1: Req)
    requires r.state != Completed && single(r, data) == Step(r1, |data|, None)
    requires ParseBy(single, r1, "") == Step(r1, 0, None)
    ensures ParseBy(single, r, data) == Step(r1, |data|, None)
  {
    if |data| == 0 {
      Stops(single, r, data, r1);
    } else {
      assert data[|data|..] == "";
      GoesOn(single, r, data, r1, |data|, "");
    }
  }

  /** Right after the head, the first `k` body bytes are consumed and the length memoised. */
  lemma BodyEntry(single: Single, l: Layout, st: seq<Req>, k: nat)
    requires Plan(single, l, st) && k <= |l.body|
    ensures ParseBy(single, st[|l.segs|], l.body[..k]) == Step(BodyAt(st[|l.segs|], l, k), k, None)
  {
    var r := st[|l.segs|];
    var data := l.body[..k];
    assert single(r, data) == Step(BodyAt(r, l, k), |data|, None);
    Idle(single, l, st, k);
    WholeRun(single, r, data, BodyAt(r, l, k));
  }

  /** In the body, the next bytes of it are consumed whole. */
  lemma BodyMoves(single: Single, l: Layout, st: seq<Req>, k: nat, c: string)
    requires Plan(single, l, st) && k < |l.body| && k + |c| <= |l.body| && l.body[k..k + |c|] == c
    ensures ParseBy(single, BodyAt(st[|l.segs|], l, k), c) == Step(BodyAt(st[|l.segs|], l, k + |c|), |c|, None)
  {
    Grow(single, l, st, k, c);
    Idle(single, l, st, k + |c|);
    WholeRun(single, BodyAt(st[|l.segs|], l, k), c, BodyAt(st[|l.segs|], l, k + |c|));
  }

  // ---------------------------------------------------------------------
  // Any prefix of a layout
  // ---------------------------------------------------------------------

  /** The bytes after a prefix `a` of `data`. */
  lemma DropPrefix(a: string, rest: string, data: string)
    requires data == a + rest
    ensures data[|a|..] == rest
  {
  }

  /** Dropping `n` more bytes after the first `s`. */
  lemma DropMore(data: string, s: nat, rest: string, n: nat)
    requires s <= |data| && data[s..] == rest && n <= |rest|
    ensures data[s + n..] == rest[n..]
  {
  }

  /** The bytes up to `k`, then the next ones. */
  lemma PrefixThen(x: string, k: nat, c: string)
    requires k + |c| <= |x| && x[k..k + |c|] == c
    ensures x[..k] + c == x[..k + |c|]
  {
  }

  /** Inside segment `j`, the bytes from `j` on are those of the segment. */
  lemma FromInside(l: Layout, j: nat, k: nat)
    requires j < |l.segs| && k < |l.segs[j]|
    ensures k <= |From(l, j)| && From(l, j)[..k] == l.segs[j][..k]
  {
  }

  /** From segment `j`, the bytes are that segment and what follows it. */
  lemma FromSplit(l: Layout, j: nat, k: nat)
    requires j < |l.segs| && |l.segs[j]| <= k <= |From(l, j)|
    ensures From(l, j)[..k] == l.segs[j] + From(l, j + 1)[..k - |l.segs[j]|]
  {
  }

  /** Past segment `j`, what follows a position in From(l, j) is what follows it, shifted, in From(l, j + 1). */
  lemma FromShiftRest(l: Layout, j: nat, k: nat)
    requires j < |l.segs| && |l.segs[j]| <= k <= |From(l, j)|
    ensures From(l, j)[k..] == From(l, j + 1)[k - |l.segs[j]|..]
  {
  }

  /** The `b` bytes before position `k` of `x`, past its first `s` bytes, are those before `k - s` in what follows them. */
  lemma ShiftHeld(x: string, y: string, s: nat, k: nat, b: nat)
    requires s <= |x| && x[s..] == y && s + b <= k <= |x|
    ensures x[k - b..k] == y[k - s - b..k - s]
  {
    assert x[s..][k - s - b..k - s] == x[k - b..k];
  }

  /** Past the whole of segment `j`, settling goes on in the next one. */
  lemma SettleNext(l: Layout, j: nat, k: nat)
    requires j < |l.segs| && |l.segs[j]| <= k
    ensures Settle(l, j, k) == Settle(l, j + 1, k - |l.segs[j]|)
  {
  }

  /** Short of the end of segment `j`, or in the body, the reader stays where it is. */
  lemma SettleHere(l: Layout, j: nat, k: nat)
    requires j >= |l.segs| || k < |l.segs[j]|
    ensures Settle(l, j, k) == (j, k)
  {
  }

  /** The bytes held at a position are the last ones received. */
  lemma HeldHere(l: Layout, j: nat, k: nat)
    requires j <= |l.segs| && k <= |From(l, j)|
    ensures var b := Buffered(l, (j, k));
      |b| <= k && From(l, j)[k - |b|..k] == b
  {
  }

  /** Settling after `k` bytes leaves the bytes of the current segment buffered at the end of those `k`. */
  lemma {:induction false} SettleHeld(l: Layout, j: nat, k: nat)
    requires j <= |l.segs| && k <= |From(l, j)|
    ensures var b := Buffered(l, Settle(l, j, k));
      |b| <= k && From(l, j)[k - |b|..k] == b
    decreases |l.segs| - j
  {
    if j < |l.segs| && k >= |l.segs[j]| {
      var s := |l.segs[j]|;
      assert From(l, j) == l.segs[j] + From(l, j + 1);
      var p := Settle(l, j + 1, k - s);
      SettleNext(l, j, k);
      SettleHeld(l, j + 1, k - s);
      var b := Buffered(l, p);
      ShiftHeld(From(l, j), From(l, j + 1), s, k, |b|);
    } else {
      SettleHere(l, j, k);
      HeldHere(l, j, k);
    }
  }

  /** Settling after `k` bytes leaves the rest of the layout still to come. */
  lemma {:induction false} SettleRest(l: Layout, j: nat, k: nat)
    requires j <= |l.segs| && k <= |From(l, j)|
    ensures var p := Settle(l, j, k);
      From(l, j)[k..] == From(l, p.0)[p.1..]
    decreases |l.segs| - j
  {
    if j < |l.segs| && k >= |l.segs[j]| {
      SettleNext(l, j, k);
      SettleRest(l, j + 1, k - |l.segs[j]|);
      FromShiftRest(l, j, k);
    } else {
      SettleHere(l, j, k);
    }
  }

  /**
   * Parsing the first `k` bytes from segment `j` on, from the request held
   * before segment `j`, consumes every complete segment among them (and,
   * past the head, the body bytes) and stops at the settled position, with
   * that position's bytes left over.
   */
  predicate RunsTo(single: Single, l: Layout, st: seq<Req>, j: nat, k: nat)
    requires |st| == |l.segs| + 1 && j <= |l.segs| && k <= |From(l, j)|
  {
    var q := Settle(l, j, k);
    StepsTo(single, st[j], From(l, j)[..k], Between(l, st, q), Buffered(l, q))
  }

  /** Inside a segment, parsing stops at once and the segment's bytes stay buffered. */
  lemma RunInside(single: Single, l: Layout, st: seq<Req>, j: nat, k: nat)
    requires Plan(single, l, st) && j < |l.segs| && k < |l.segs[j]|
    ensures k <= |From(l, j)| && RunsTo(single, l, st, j, k)
  {
    var data := From(l, j)[..k];
    FromInside(l, j, k);
    Stops(single, st[j], data, st[j]);
    SettleHere(l, j, k);
    assert data[0..] == data;
  }

  /** In the body, all the bytes so far are consumed. */
  lemma RunBody(single: Single, l: Layout, st: seq<Req>, k: nat)
    requires Plan(single, l, st) && k <= |l.body|
    ensures k <= |From(l, |l.segs|)| && RunsTo(single, l, st, |l.segs|, k)
  {
    var n := |l.segs|;
    assert From(l, n) == l.body;
    BodyEntry(single, l, st, k);
    SettleHere(l, n, k);
    assert l.body[..k][k..] == "";
  }

  /** A whole segment at the start of `data` takes one step to the request held before the next. */
  lemma NextStep(single: Single, l: Layout, st: seq<Req>, j: nat, data: string, rest: string)
    requires Plan(single, l, st) && j < |l.segs| && data == l.segs[j] + rest
    ensures st[j].state != Completed && single(st[j], data) == Step(st[j + 1], |l.segs[j]|, None)
  {
  }

  /** Steps resumed after `n` consumed bytes land where the resumed steps land. */
  lemma LandingResumed(s: Step, t: Step, data: string, n: nat, rest: string, r2: Req, rest2: string)
    requires s == Resumed(t, n) && n <= |data| && data[n..] == rest && Landing(t, rest) == Some((r2, rest2))
    ensures Landing(s, data) == Some((r2, rest2))
  {
    DropMore(data, n, rest, t.n);
  }

  /** A step that consumes `n` bytes, then a run on the rest, is a run on the whole. */
  lemma StepThenRun(single: Single, r: Req, data: string, r1: Req, n: nat, rest: string, r2: Req, rest2: string)
    requires r.state != Completed && single(r, data) == Step(r1, n, None) && 0 < n <= |data| && data[n..] == rest
    requires StepsTo(single, r1, rest, r2, rest2)
    ensures StepsTo(single, r, data, r2, rest2)
  {
    GoesOn(single, r, data, r1, n, rest);
    LandingResumed(ParseBy(single, r, data), ParseBy(single, r1, rest), data, n, rest, r2, rest2);
  }

  /** A whole segment is consumed, and parsing goes on as it does from the next one. */
  lemma RunNext(single: Single, l: Layout, st: seq<Req>, j: nat, k: nat)
    requires Plan(single, l, st) && j < |l.segs| && |l.segs[j]| <= k <= |From(l, j)|
    requires k - |l.segs[j]| <= |From(l, j + 1)| && RunsTo(single, l, st, j + 1, k - |l.segs[j]|)
    ensures RunsTo(single, l, st, j, k)
  {
    var s := |l.segs[j]|;
    var data := From(l, j)[..k];
    var rest := From(l, j + 1)[..k - s];
    var q := Settle(l, j + 1, k - s);
    FromSplit(l, j, k);
    DropPrefix(l.segs[j], rest, data);
    NextStep(single, l, st, j, data, rest);
    SettleNext(l, j, k);
    StepThenRun(single, st[j], data, st[j + 1], s, rest, Between(l, st, q), Buffered(l, q));
    RunsToBy(single, l, st, j, k, q, data);
  }

  /** RunsTo, given where the first `k` bytes settle and a run over them to there. */
  lemma RunsToBy(single: Single, l: Layout, st: seq<Req>, j: nat, k: nat, q: (nat, nat), data: string)
    requires |st| == |l.segs| + 1 && j <= |l.segs| && k <= |From(l, j)|
    requires Settle(l, j, k) == q && From(l, j)[..k] == data
    requires StepsTo(single, st[j], data, Between(l, st, q), Buffered(l, q))
    ensures RunsTo(single, l, st, j, k)
  {
  }

  /** Any prefix of the bytes from segment `j` on runs to its settled position. */
  lemma {:induction false} Run(single: Single, l: Layout, st: seq<Req>, j: nat, k: nat)
    requires Plan(single, l, st) && j <= |l.segs| && k <= |From(l, j)|
    ensures RunsTo(single, l, st, j, k)
    decreases |l.segs| - j
  {
    if j == |l.segs| {
      RunBody(single, l, st, k);
    } else if k < |l.segs[j]| {
      RunInside(single, l, st, j, k);
    } else {
      Run(single, l, st, j + 1, k - |l.segs[j]|);
      RunNext(single, l, st, j, k);
    }
  }

  // ---------------------------------------------------------------------
  // The read loop
  // ---------------------------------------------------------------------

  /** One read: the loop parses what is buffered and the new bytes, and goes on with what is left. */
  lemma ReadByStep(single: Single, r: Req, buf: string, c: string, src: seq<ReadOutcome>, r1: Req, buf1: string)
    requires r.state != Completed && StepsTo(single, r, buf + c, r1, buf1)
    ensures ReadBy(single, r, buf, [Bytes(c)] + src) == ReadBy(single, r1, buf1, src)
  {
    assert ([Bytes(c)] + src)[1..] == src;
  }

  /** The reads of `chunks`, then whatever follows: the first chunk, then the others. */
  lemma FeedFirst(chunks: seq<string>, rest: seq<ReadOutcome>)
    requires |chunks| > 0
    ensures Feed(chunks) + rest == [Bytes(chunks[0])] + (Feed(chunks[1..]) + rest)
  {
  }

  /** The first read moves the loop from `r` to `r1`; what the loop does from there is what it does from `r`. */
  lemma ReadOn(single: Single, r: Req, buf: string, chunks: seq<string>, rest: seq<ReadOutcome>, r1: Req, buf1: string)
    requires r.state != Completed && |chunks| > 0 && StepsTo(single, r, buf + chunks[0], r1, buf1)
    ensures ReadBy(single, r, buf, Feed(chunks) + rest) == ReadBy(single, r1, buf1, Feed(chunks[1..]) + rest)
  {
    FeedFirst(chunks, rest);
    ReadByStep(single, r, buf, chunks[0], Feed(chunks[1..]) + rest, r1, buf1);
  }

  /** The first chunk of the bytes from `k` on in `x` comes next in `x`; the other chunks hold the bytes after it. */
  lemma ConcatFirst(chunks: seq<string>, x: string, k: nat)
    requires k < |x| && Concat(chunks) == x[k..]
    ensures |chunks| > 0 && k + |chunks[0]| <= |x|
    ensures x[k..k + |chunks[0]|] == chunks[0] && Concat(chunks[1..]) == x[k + |chunks[0]|..]
  {
    assert x[k..] == chunks[0] + Concat(chunks[1..]);
    var n := |chunks[0]|;
    assert x[k..][..n] == x[k..k + n];
    assert x[k..][n..] == x[k + n..];
  }

  /** The read loop, from position `p` on the reads of `chunks` and then `rest`, returns the final request. */
  predicate Delivers(single: Single, l: Layout, st: seq<Req>, p: (nat, nat), chunks: seq<string>, rest: seq<ReadOutcome>)
    requires |st| == |l.segs| + 1
  {
    ReadBy(single, Between(l, st, p), Buffered(l, p), Feed(chunks) + rest) == Ok(Final(l, st))
  }

  /** At the end of the body the request is complete, and the read loop returns it at once. */
  lemma AtEnd(single: Single, l: Layout, st: seq<Req>, chunks: seq<string>, rest: seq<ReadOutcome>)
    requires |st| == |l.segs| + 1
    ensures Delivers(single, l, st, (|l.segs|, |l.body|), chunks, rest)
  {
  }

  /** From position `p`, the buffered bytes and the next ones `c` run to the position they settle at. */
  predicate Moves(single: Single, l: Layout, st: seq<Req>, p: (nat, nat), c: string)
    requires |st| == |l.segs| + 1
  {
    var q := Settle(l, p.0, p.1 + |c|);
    StepsTo(single, Between(l, st, p), Buffered(l, p) + c, Between(l, st, q), Buffered(l, q))
  }

  /** In the head, the request is the one held before segment `j`, and the segment's bytes so far are buffered. */
  lemma HeadAt(l: Layout, st: seq<Req>, j: nat, k: nat)
    requires |st| == |l.segs| + 1 && j < |l.segs| && k <= |From(l, j)|
    ensures Between(l, st, (j, k)) == st[j] && Buffered(l, (j, k)) == From(l, j)[..k]
  {
  }

  /** A run on the same bytes, named differently, ends in the same place. */
  lemma SameRun(single: Single, l: Layout, st: seq<Req>, j: nat, e: nat, r: Req, data: string)
    requires |st| == |l.segs| + 1 && j <= |l.segs| && e <= |From(l, j)|
    requires RunsTo(single, l, st, j, e) && r == st[j] && data == From(l, j)[..e]
    ensures var q := Settle(l, j, e);
      StepsTo(single, r, data, Between(l, st, q), Buffered(l, q))
  {
  }

  /** In the head, the request held, and the bytes buffered followed by the next ones `c`. */
  lemma HeadBytes(l: Layout, st: seq<Req>, j: nat, k: nat, c: string)
    requires |st| == |l.segs| + 1 && j < |l.segs| && k + |c| <= |From(l, j)| && From(l, j)[k..k + |c|] == c
    ensures Between(l, st, (j, k)) == st[j] && Buffered(l, (j, k)) + c == From(l, j)[..k + |c|]
  {
    HeadAt(l, st, j, k);
    PrefixThen(From(l, j), k, c);
  }

  /** In the head, a run over the buffered bytes and the next ones `c` is a move from the position. */
  lemma HeadMovesOn(single: Single, l: Layout, st: seq<Req>, j: nat, k: nat, c: string)
    requires |st| == |l.segs| + 1 && j < |l.segs| && k + |c| <= |From(l, j)| && From(l, j)[k..k + |c|] == c
    requires RunsTo(single, l, st, j, k + |c|)
    ensures Moves(single, l, st, (j, k), c)
  {
    HeadBytes(l, st, j, k, c);
    SameRun(single, l, st, j, k + |c|, Between(l, st, (j, k)), Buffered(l, (j, k)) + c);
  }

  /** In the head, the next bytes run to the position they settle at. */
  lemma HeadMoves(single: Single, l: Layout, st: seq<Req>, j: nat, k: nat, c: string)
    requires Plan(single, l, st) && j < |l.segs| && k + |c| <= |From(l, j)| && From(l, j)[k..k + |c|] == c
    ensures Moves(single, l, st, (j, k), c)
  {
    Run(single, l, st, j, k + |c|);
    HeadMovesOn(single, l, st, j, k, c);
  }

  /** `k` bytes into the body, the body request is held with nothing buffered, and the next bytes `c` keep it in the body. */
  lemma BodyPlace(l: Layout, st: seq<Req>, k: nat, c: string)
    requires |st| == |l.segs| + 1 && k + |c| <= |l.body|
    ensures var n := |l.segs|;
      && Between(l, st, (n, k)) == BodyAt(st[n], l, k) && Buffered(l, (n, k)) + c == c
      && Settle(l, n, k + |c|) == (n, k + |c|)
      && Between(l, st, (n, k + |c|)) == BodyAt(st[n], l, k + |c|) && Buffered(l, (n, k + |c|)) == ""
  {
    assert "" + c == c;
  }

  /** parse that consumes all of `data` lands with nothing left over. */
  lemma LandsWhole(single: Single, r: Req, data: string, r1: Req)
    requires ParseBy(single, r, data) == Step(r1, |data|, None)
    ensures StepsTo(single, r, data, r1, "")
  {
    assert data[|data|..] == "";
  }

  /** In the body, the next bytes are added to it. */
  lemma BodyMovesOn(single: Single, l: Layout, st: seq<Req>, k: nat, c: string, r: Req, r1: Req)
    requires |st| == |l.segs| + 1 && k + |c| <= |l.body|
    requires r == BodyAt(st[|l.segs|], l, k) && r1 == BodyAt(st[|l.segs|], l, k + |c|)
    requires ParseBy(single, r, c) == Step(r1, |c|, None)
    ensures Moves(single, l, st, (|l.segs|, k), c)
  {
    var n := |l.segs|;
    BodyPlace(l, st, k, c);
    MovesWhole(single, l, st, (n, k), c, (n, k + |c|), r, r1);
  }

  /** A move from a position with nothing buffered, by a run that consumes all the next bytes. */
  lemma MovesWhole(single: Single, l: Layout, st: seq<Req>, p: (nat, nat), c: string, q: (nat, nat), r: Req, r1: Req)
    requires |st| == |l.segs| + 1
    requires Between(l, st, p) == r && Buffered(l, p) + c == c
    requires Settle(l, p.0, p.1 + |c|) == q && Between(l, st, q) == r1 && Buffered(l, q) == ""
    requires ParseBy(single, r, c) == Step(r1, |c|, None)
    ensures Moves(single, l, st, p, c)
  {
    LandsWhole(single, r, c, r1);
  }


  /** Short of the end, the next bytes of the layout move the loop on, from a request still in progress. */
  lemma Advance(single: Single, l: Layout, st: seq<Req>, j: nat, k: nat, c: string)
    requires Plan(single, l, st) && Settled(l, j, k) && k < |From(l, j)|
    requires k + |c| <= |From(l, j)| && From(l, j)[k..k + |c|] == c
    ensures Between(l, st, (j, k)).state != Completed && Moves(single, l, st, (j, k), c)
  {
    if j < |l.segs| {
      HeadMoves(single, l, st, j, k, c);
    } else {
      assert From(l, j) == l.body;
      BodyMoves(single, l, st, k, c);
      BodyMovesOn(single, l, st, k, c, BodyAt(st[|l.segs|], l, k), BodyAt(st[|l.segs|], l, k + |c|));
    }
  }

  /** One read: when it moves the loop on, what the loop returns is what it returns from where it lands. */
  lemma ReadStep(single: Single, l: Layout, st: seq<Req>, p: (nat, nat), chunks: seq<string>, rest: seq<ReadOutcome>)
    requires |st| == |l.segs| + 1 && |chunks| > 0 && Between(l, st, p).state != Completed
    requires Moves(single, l, st, p, chunks[0])
    requires Delivers(single, l, st, Settle(l, p.0, p.1 + |chunks[0]|), chunks[1..], rest)
    ensures Delivers(single, l, st, p, chunks, rest)
  {
    var q := Settle(l, p.0, p.1 + |chunks[0]|);
    ReadOn(single, Between(l, st, p), Buffered(l, p), chunks, rest, Between(l, st, q), Buffered(l, q));
  }

  /**
   * The read loop from a settled position: when the remaining reads
   * deliver exactly the rest of the layout, whatever follows them, the
   * result is the final request.
   */
  lemma {:induction false} Delivered(single: Single, l: Layout, st: seq<Req>, p: (nat, nat), chunks: seq<string>, rest: seq<ReadOutcome>)
    requires Plan(single, l, st) && Settled(l, p.0, p.1) && Concat(chunks) == From(l, p.0)[p.1..]
    ensures Delivers(single, l, st, p, chunks, rest)
    decreases |chunks|
  {
    var (j, k) := p;
    assert p == (j, k);
    if j == |l.segs| && k == |l.body| {
      AtEnd(single, l, st, chunks, rest);
    } else {
      ConcatFirst(chunks, From(l, j), k);
      var e := k + |chunks[0]|;
      SettleRest(l, j, e);
      Delivered(single, l, st, Settle(l, j, e), chunks[1..], rest);
      Advance(single, l, st, j, k, chunks[0]);
      ReadStep(single, l, st, p, chunks, rest);
    }
  }

  // ---------------------------------------------------------------------
  // The body, step by step
  // ---------------------------------------------------------------------

  /** Right after the head: no body yet, and the declared length `l.memo`, which the body matches, or none and no body. */
  predicate BodyReady(r: Req, l: Layout) {
    && r.state == ParsingBody && r.body == "" && r.contentLength == None
    && DeclaredLength(r.headers) == Ok(l.memo)
    && match l.memo
       case None => l.body == ""
       case Some(n) => n == |l.body|
  }

  /** A body step within the declared length appends the bytes and completes at the length. */
  lemma BodyBytesStep(r: Req, data: string, cl: int)
    requires r.state == ParsingBody && r.contentLength == Some(cl) && |r.body| + |data| <= cl
    ensures StepSingle(r, data) ==
      Step(r.(body := r.body + data, state := if |r.body| + |data| == cl then Completed else ParsingBody), |data|, None)
  {
    StepBodyWithLength(r, data, cl);
  }

  /** Right after the head, one step takes the first `k` body bytes and memoises the length. */
  lemma BodyEntryStep(r: Req, l: Layout, k: nat)
    requires BodyReady(r, l) && k <= |l.body|
    ensures StepSingle(r, l.body[..k]) == Step(BodyAt(r, l, k), k, None)
  {
    var data := l.body[..k];
    assert r.body + data == l.body[..k];
    assert |r.body| + |data| == k;
    match l.memo
    case None =>
      StepBodyWithoutLength(r, data);
      assert data == "";
    case Some(cl) =>
      StepBodyWithLength(r, data, cl);
  }

  /** Inside the body, one step takes the next bytes of it, completing the request at the declared length. */
  lemma BodyGrowStep(r: Req, l: Layout, k: nat, c: string)
    requires BodyReady(r, l) && k < |l.body| && k + |c| <= |l.body| && l.body[k..k + |c|] == c
    ensures StepSingle(BodyAt(r, l, k), c) == Step(BodyAt(r, l, k + |c|), |c|, None)
  {
    var b := BodyAt(r, l, k);
    assert b.contentLength == Some(|l.body|);
    BodyBytesStep(b, c, |l.body|);
    PrefixThen(l.body, k, c);
  }

  // ---------------------------------------------------------------------
  // A request's own layout
  // ---------------------------------------------------------------------

  /** The head segments of a request. */
  function Segments(msg: Message): (segs: seq<string>)
    ensures |segs| == Last(msg)
  {
    seq(Last(msg), j requires 0 <= j < Last(msg) => Segment(msg, j))
  }

  /** The requests held before each segment, and after the head. */
  function States(msg: Message): (st: seq<Req>)
    ensures |st| == Last(msg) + 1
  {
    seq(Last(msg) + 1, j requires 0 <= j <= Last(msg) => Before(msg, j))
  }

  /** A request laid out as its head segments and its body. */
  function LayoutOf(msg: Message): Layout {
    Layout(Segments(msg), msg.body, Memo(msg))
  }

  /** The bytes a client sends for the request. */
  function Wire(msg: Message): string {
    From(LayoutOf(msg), 0)
  }

  /** Each whole segment of a well-formed request takes the parser to the next. */
  lemma StepsOf(msg: Message)
    requires WellFormed(msg)
    ensures SegmentsStep(StepSingle, LayoutOf(msg), States(msg))
  {
    var l := LayoutOf(msg);
    var st := States(msg);
    var single: Single := StepSingle;
    forall i, rest | 0 <= i < |l.segs|
      ensures single(st[i], l.segs[i] + rest) == Step(st[i + 1], |l.segs[i]|, None)
    {
      SegmentStep(msg, i, rest);
    }
  }

  /** Each proper prefix of a segment of a well-formed request leaves the parser waiting. */
  lemma WaitsOf(msg: Message)
    requires WellFormed(msg)
    ensures PrefixesWait(StepSingle, LayoutOf(msg), States(msg))
  {
    var l := LayoutOf(msg);
    var st := States(msg);
    var single: Single := StepSingle;
    forall i, k | 0 <= i < |l.segs| && 0 <= k < |l.segs[i]|
      ensures single(st[i], l.segs[i][..k]) == Step(st[i], 0, None)
    {
      SegmentPartial(msg, i, k);
    }
  }

  /** After the head of a well-formed request, the parser is ready for its body. */
  lemma ReadyOf(msg: Message)
    requires WellFormed(msg)
    ensures BodyReady(States(msg)[Last(msg)], LayoutOf(msg))
  {
    assert States(msg)[Last(msg)] == Before(msg, Last(msg));
  }

  /** Right after the head of a well-formed request, one step takes the first `k` body bytes. */
  lemma EntersOf(msg: Message)
    requires WellFormed(msg)
    ensures BodyEnters(StepSingle, LayoutOf(msg), States(msg))
  {
    var l := LayoutOf(msg);
    var r := States(msg)[|l.segs|];
    ReadyOf(msg);
    var single: Single := StepSingle;
    forall k | 0 <= k <= |l.body|
      ensures single(r, l.body[..k]) == Step(BodyAt(r, l, k), k, None)
    {
      BodyEntryStep(r, l, k);
    }
  }

  /** Inside the body of a well-formed request, one step takes the next bytes of it. */
  lemma GrowsOf(msg: Message)
    requires WellFormed(msg)
    ensures BodyGrows(StepSingle, LayoutOf(msg), States(msg))
  {
    var l := LayoutOf(msg);
    var r := States(msg)[|l.segs|];
    ReadyOf(msg);
    var single: Single := StepSingle;
    forall k, c | 0 <= k < |l.body| && k + |c| <= |l.body| && l.body[k..k + |c|] == c
      ensures single(BodyAt(r, l, k), c) == Step(BodyAt(r, l, k + |c|), |c|, None)
    {
      BodyGrowStep(r, l, k, c);
    }
  }

  /** No request held along a well-formed request's layout is complete yet. */
  lemma PendingOf(msg: Message)
    ensures var l := LayoutOf(msg); var st := States(msg);
      forall i :: 0 <= i <= |l.segs| ==> st[i].state != Completed
  {
    var l := LayoutOf(msg);
    var st := States(msg);
    forall i | 0 <= i <= |l.segs|
      ensures st[i].state != Completed
    {
      assert st[i] == Before(msg, i);
    }
  }

  /** No head segment is empty. */
  lemma NonEmptyOf(msg: Message)
    ensures var l := LayoutOf(msg);
      forall i :: 0 <= i < |l.segs| ==> |l.segs[i]| > 0
  {
    var l := LayoutOf(msg);
    forall i | 0 <= i < |l.segs|
      ensures |l.segs[i]| > 0
    {
      assert l.segs[i] == Segment(msg, i);
    }
  }

  /** parseSingle walks a well-formed request's layout segment by segment. */
  lemma PlanOf(msg: Message)
    requires WellFormed(msg)
    ensures Plan(StepSingle, LayoutOf(msg), States(msg))
  {
    StepsOf(msg);
    WaitsOf(msg);
    EntersOf(msg);
    GrowsOf(msg);
    PendingOf(msg);
    NonEmptyOf(msg);
  }

  /** Once the whole layout is in, the request is the parsed one. */
  lemma FinalOf(msg: Message)
    ensures Final(LayoutOf(msg), States(msg)) == Parsed(msg)
  {
    assert States(msg)[Last(msg)] == Before(msg, Last(msg));
    assert msg.body[..|msg.body|] == msg.body;
  }

  /**
   * Chunk independence: however the bytes of a well-formed request are
   * split into reads, and whatever the connection does after them,
   * ParseFromReader returns the request with its line, its header map,
   * its body and the memoised Content-Length.
   */
  lemma ParseAnyChunking(msg: Message, chunks: seq<string>, rest: seq<ReadOutcome>)
    requires WellFormed(msg) && Concat(chunks) == Wire(msg)
    ensures ParseFromReader(Feed(chunks) + rest) == Ok(Parsed(msg))
  {
    var l := LayoutOf(msg);
    var st := States(msg);
    PlanOf(msg);
    FinalOf(msg);
    assert st[0] == Fresh;
    assert From(l, 0)[0..] == Wire(msg);
    assert From(l, 0)[..0] == "";
    Delivered(StepSingle, l, st, (0, 0), chunks, rest);
    ReadAllIsReadBy(Fresh, "", Feed(chunks) + rest);
  }

  /** Two splittings of the same request into reads parse to the same request. */
  lemma SameForEveryChunking(msg: Message, a: seq<string>, b: seq<string>)
    requires WellFormed(msg) && Concat(a) == Wire(msg) && Concat(b) == Wire(msg)
    ensures ParseFromReader(Feed(a)) == ParseFromReader(Feed(b))
    ensures ParseFromReader(Feed(a)).Ok? && ParseFromReader(Feed(a)).value.state == Completed
  {
    ParseAnyChunking(msg, a, []);
    ParseAnyChunking(msg, b, []);
    assert Feed(a) + [] == Feed(a);
    assert Feed(b) + [] == Feed(b);
  }
}
