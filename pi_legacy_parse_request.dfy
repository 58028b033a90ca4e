/**
 * The one-shot request parser of the pihttp prototype
 * (pihttp/parse_request.go): the message is cut at every CRLF; the first
 * piece is the request line, the last the body, and the ones between are
 * field lines "name: value".
 */
module PiLegacyParseRequest {
  import opened Wrappers
  import opened Text
  import L = PiLegacyRequestLine
  import LH = PiLegacyHeader

  datatype Request = Request(requestLine: L.RequestLine, headers: LH.Header, rawQuery: string, entityBody: string)

  // ---------------------------------------------------------------------
  // The request line
  // ---------------------------------------------------------------------

  /** The line, less a trailing CRLF, has at least three space-separated fields; the source stops the program otherwise. */
  predicate HasThreeFields(b: string) {
    |Split(TrimSuffix(b, CRLF), " ")| >= 3
  }

  /**
   * parseRequestLine: the method, URI and version are the first three
   * fields, any further fields are dropped, and the path is the URI up to
   * its first '?' (all of it when there is none).
   */
  function ParseRequestLine(b: string): (rl: L.RequestLine)
    requires HasThreeFields(b)
    ensures '?' !in rl.path && HasPrefix(rl.uri, rl.path)
    ensures |rl.path| == |rl.uri| || rl.uri[|rl.path|] == '?'
  {
    var requestLineSplit := Split(TrimSuffix(b, CRLF), " ");
    var uri := requestLineSplit[1];
    var (path, _, ok) := Cut(uri, "?");
    ContainsChar(path, '?');
    ContainsChar(uri, '?');
    assert ok ==> uri == path + "?" + Cut(uri, "?").1;
    L.RequestLine(requestLineSplit[0], uri, path, requestLineSplit[2])
  }

  /**
   * "method SP uri SP version", optionally followed by more space-led
   * text and a CRLF, parses into those three fields.
   */
  lemma RequestLineFields(b: string, m: string, uri: string, version: string, tail: string)
    requires TrimSuffix(b, CRLF) == m + " " + uri + " " + version + tail
    requires ' ' !in m && ' ' !in uri && ' ' !in version && (tail == "" || tail[0] == ' ')
    ensures HasThreeFields(b)
    ensures var rl := ParseRequestLine(b);
      rl.httpMethod == m && rl.uri == uri && rl.httpVersion == version
  {
    FirstThreeFields(TrimSuffix(b, CRLF), m, uri, version, tail, ' ');
  }

  // ---------------------------------------------------------------------
  // Field lines
  // ---------------------------------------------------------------------

  /**
   * One field line: an empty line, or one without ": ", gives nothing;
   * otherwise the name is the text before the first ": ", kept as sent, and
   * the value what follows it, less one leading space.
   */
  function FieldOf(line: string): (r: Option<(string, string)>)
    ensures r.None? <==> |line| == 0 || !Contains(line, ": ")
    ensures r.Some? ==> !Contains(r.value.0, ": ")
    ensures r.Some? ==> line == r.value.0 + ": " + r.value.1 || line == r.value.0 + ":  " + r.value.1
  {
    if |line| == 0 then None
    else
      var (key, rest, found) := Cut(line, ": ");
      if !found then None
      else
        assert HasPrefix(rest, " ") ==> key + ": " + rest == key + ":  " + rest[1..];
        Some((key, TrimPrefix(rest, " ")))
  }

  /** The (name, value) pairs of the lines that carry one, in order. */
  function Fields(lines: seq<string>): seq<(string, string)>
    decreases |lines|
  {
    if lines == [] then []
    else
      var f := FieldOf(lines[|lines| - 1]);
      Fields(lines[..|lines| - 1]) + (if f.Some? then [f.value] else [])
  }

  /** parseHeaders: every value of every field line, under its name, in the order of the lines. */
  method ParseHeaders(headersBytes: seq<string>) returns (header: LH.Header)
    ensures header == LH.Collect(Fields(headersBytes))
  {
    header := map[];
    for i := 0 to |headersBytes|
      invariant header == LH.Collect(Fields(headersBytes[..i]))
    {
      assert headersBytes[..i + 1] == headersBytes[..i] + [headersBytes[i]];
      FieldsSnoc(headersBytes[..i], headersBytes[i]);
      var headerBytes := headersBytes[i];
      if |headerBytes| == 0 {
        assert Fields(headersBytes[..i + 1]) == Fields(headersBytes[..i]);
        continue;
      }
      var (key, rest, found) := Cut(headerBytes, ": ");
      if !found {
        assert Fields(headersBytes[..i + 1]) == Fields(headersBytes[..i]);
        continue;
      }
      var val := TrimPrefix(rest, " ");
      assert FieldOf(headerBytes) == Some((key, val));
      LH.CollectSnoc(Fields(headersBytes[..i]), key, val);
      header := header[key := LH.ValuesAt(header, key) + [val]];
      assert header == LH.Collect(Fields(headersBytes[..i + 1]));
    }
    assert headersBytes[..|headersBytes|] == headersBytes;
  }

  /** One more line adds its pair, if it carries one. */
  lemma FieldsSnoc(lines: seq<string>, line: string)
    ensures Fields(lines + [line]) == Fields(lines) + (if FieldOf(line).Some? then [FieldOf(line).value] else [])
  {
    assert (lines + [line])[..|lines|] == lines;
  }

  /** A line "name: value" with no ": " inside the name gives that name and the value less one leading space. */
  lemma FieldOfLine(key: string, val: string)
    requires !Contains(key, ": ")
    ensures FieldOf(key + ": " + val) == Some((key, TrimPrefix(val, " ")))
  {
    IndexPair(key, ": ", val);
    var line := key + ": " + val;
    assert line[..|key|] == key && line[|key| + 2..] == val;
  }

  /** The field lines "name: value" of a list of pairs. */
  function LinesOf(pairs: seq<(string, string)>): (lines: seq<string>)
    ensures |lines| == |pairs|
  {
    seq(|pairs|, i requires 0 <= i < |pairs| => pairs[i].0 + ": " + pairs[i].1)
  }

  /**
   * Writing pairs as field lines and parsing them back gives the pairs,
   * when no name holds ": " and no value starts with a space; so the map
   * holds every value sent under a name, in the order sent.
   */
  lemma {:induction false} FieldsOfLines(pairs: seq<(string, string)>)
    requires forall i :: 0 <= i < |pairs| ==> !Contains(pairs[i].0, ": ")
    requires forall i :: 0 <= i < |pairs| ==> pairs[i].1 == "" || pairs[i].1[0] != ' '
    ensures Fields(LinesOf(pairs)) == pairs
    decreases |pairs|
  {
    if pairs != [] {
      var n := |pairs| - 1;
      assert LinesOf(pairs)[..n] == LinesOf(pairs[..n]);
      FieldsOfLines(pairs[..n]);
      FieldOfLine(pairs[n].0, pairs[n].1);
      assert pairs == pairs[..n] + [pairs[n]];
    }
  }

  /** Empty lines and lines without ": " are skipped. */
  lemma SkippedLines(lines: seq<string>, skipped: string)
    requires |skipped| == 0 || !Contains(skipped, ": ")
    ensures Fields(lines + [skipped]) == Fields(lines)
  {
    assert (lines + [skipped])[..|lines|] == lines;
  }

  // ---------------------------------------------------------------------
  // The whole message
  // ---------------------------------------------------------------------

  /**
   * What parseRequest asks of its input without saying so: a CRLF (the
   * header slice [1:0] is out of range otherwise), a request line of three
   * fields, and a '?' in the URI (RawQuery is always called).
   */
  predicate CanParse(req: string) {
    var parts := Split(req, CRLF);
    |parts| >= 2 && HasThreeFields(parts[0]) && '?' in ParseRequestLine(parts[0]).uri
  }

  /** The request that parseRequest builds. */
  function RequestOf(req: string): Request
    requires CanParse(req)
  {
    var reqByLineBreak := Split(req, CRLF);
    var entityBodyIndex := |reqByLineBreak| - 1;
    var requestLine := ParseRequestLine(reqByLineBreak[0]);
    Request(requestLine, LH.Collect(Fields(reqByLineBreak[1..entityBodyIndex])),
      requestLine.RawQuery(), reqByLineBreak[entityBodyIndex])
  }

  /** parseRequest */
  method ParseRequest(req: string) returns (r: Request)
    requires CanParse(req)
    ensures r == RequestOf(req)
  {
    var reqByLineBreak := Split(req, CRLF);
    var entityBodyIndex := |reqByLineBreak| - 1;
    var requestLine := ParseRequestLine(reqByLineBreak[0]);
    var headers := ParseHeaders(reqByLineBreak[1..entityBodyIndex]);
    return Request(requestLine, headers, requestLine.RawQuery(), reqByLineBreak[entityBodyIndex]);
  }

  /**
   * A message made of a request line, field lines and a body, none of them
   * holding a CRLF, joined with CRLF: the request line, the fields of the
   * field lines and the body are read back, and the raw query is that of
   * the URI.
   */
  lemma MessageParts(line: string, fieldLines: seq<string>, body: string)
    requires !Contains(line, CRLF) && !Contains(body, CRLF)
    requires forall k :: 0 <= k < |fieldLines| ==> !Contains(fieldLines[k], CRLF)
    requires HasThreeFields(line) && '?' in ParseRequestLine(line).uri
    ensures var req := Join([line] + fieldLines + [body], CRLF);
      CanParse(req) && RequestOf(req) ==
        Request(ParseRequestLine(line), LH.Collect(Fields(fieldLines)), ParseRequestLine(line).RawQuery(), body)
  {
    var parts := [line] + fieldLines + [body];
    forall k | 0 <= k < |parts|
      ensures !Contains(parts[k], CRLF)
    {
      if 0 < k < |parts| - 1 {
        assert parts[k] == fieldLines[k - 1];
      }
    }
    SplitJoinLines(parts);
    var req := Join(parts, CRLF);
    assert Split(req, CRLF) == parts;
    assert parts[0] == line && parts[|parts| - 1] == body;
    assert parts[1..|parts| - 1] == fieldLines;
  }

  /**
   * A body that holds a CRLF is not read whole: only the text after its
   * last CRLF is the body, and the rest is taken for field lines.
   */
  lemma BodyWithLineBreak(req: string, before: string, after: string)
    requires CanParse(req) && HasSuffix(req, CRLF + after) && !Contains(after, CRLF)
    requires before + CRLF + after == req
    ensures RequestOf(req).entityBody == after
  {
    LastPiece(req, before, CRLF, after);
  }
}
