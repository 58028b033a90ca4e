/**
 * The earlier request parser in pihttp/server.go (lines 92-186): the
 * message is cut at every CRLF, the first piece is read as the request
 * line, and every piece, the request line included, is read as a field
 * line "name:value".
 */
module PiLegacyServer {
  import opened Text
  import LH = PiLegacyHeader

  datatype RequestLine = RequestLine(httpMethod: string, uri: string, httpVersion: string)

  datatype Request = Request(requestLine: RequestLine, header: LH.Header)

  // ---------------------------------------------------------------------
  // The request line
  // ---------------------------------------------------------------------

  /** The line, less a trailing CRLF, has at least three space-separated fields; the source stops the program otherwise. */
  predicate HasThreeFields(s: string) {
    |Split(TrimSuffix(s, CRLF), " ")| >= 3
  }

  /** parseRequestLine: the first three space-separated fields; none of them holds a space, and further fields are dropped. */
  function ParseRequestLine(requestLineStr: string): (rl: RequestLine)
    requires HasThreeFields(requestLineStr)
    ensures ' ' !in rl.httpMethod && ' ' !in rl.uri && ' ' !in rl.httpVersion
  {
    var line := TrimSuffix(requestLineStr, CRLF);
    var requestLineSplit := Split(line, " ");
    PiecesLackSeparator(line, " ");
    ContainsChar(requestLineSplit[0], ' ');
    ContainsChar(requestLineSplit[1], ' ');
    ContainsChar(requestLineSplit[2], ' ');
    RequestLine(requestLineSplit[0], requestLineSplit[1], requestLineSplit[2])
  }

  /**
   * "method SP uri SP version", optionally followed by more space-led
   * text and a CRLF, parses into those three fields.
   */
  lemma RequestLineFields(s: string, m: string, uri: string, version: string, tail: string)
    requires TrimSuffix(s, CRLF) == m + " " + uri + " " + version + tail
    requires ' ' !in m && ' ' !in uri && ' ' !in version && (tail == "" || tail[0] == ' ')
    ensures HasThreeFields(s)
    ensures ParseRequestLine(s) == RequestLine(m, uri, version)
  {
    FirstThreeFields(TrimSuffix(s, CRLF), m, uri, version, tail, ' ');
  }

  // ---------------------------------------------------------------------
  // Field lines
  // ---------------------------------------------------------------------

  /** `line` is `name`, ':', the raw value `v`, and a rest that is empty or starts at the next ':'. */
  predicate CutAtColons(line: string, name: string, v: string, more: string) {
    && line == name + ":" + v + more
    && ':' !in name && ':' !in v && (more == "" || more[0] == ':')
  }

  /**
   * One field line, cut at every ':': the name is the text before the
   * first ':', and the value the text between the first and the second
   * ':' (or the end), less one leading space. A line without ':' makes
   * the source index out of range, so one is required. The raw value `v`
   * loses a leading space only when it has one, so "k:v" gives "v" too.
   */
  function FieldOf(headerStr: string): (p: (string, string))
    requires ':' in headerStr
    ensures HasPrefix(headerStr, p.0 + ":") && ':' !in p.0 && ':' !in p.1
    ensures exists v: string, more: string :: CutAtColons(headerStr, p.0, v, more) && p.1 == TrimPrefix(v, " ")
  {
    var headerSplit := Split(headerStr, ":");
    SecondPiece(headerStr, ':');
    var v := headerSplit[1];
    var k := |headerSplit[0]| + 1 + |v|;
    var more := headerStr[k..];
    assert headerStr == headerStr[..k] + more;
    assert headerStr[..|headerSplit[0]| + 1] == headerSplit[0] + ":";
    var val := TrimPrefix(v, " ");
    assert ':' !in val by {
      if HasPrefix(v, " ") {
        assert forall j :: 0 <= j < |val| ==> val[j] == v[j + 1];
      }
    }
    assert CutAtColons(headerStr, headerSplit[0], v, more);
    (headerSplit[0], val)
  }

  /** The pairs of the lines, one per line. */
  function Pairs(lines: seq<string>): (ps: seq<(string, string)>)
    requires forall k :: 0 <= k < |lines| ==> ':' in lines[k]
    ensures |ps| == |lines|
    decreases |lines|
  {
    if lines == [] then []
    else Pairs(lines[..|lines| - 1]) + [FieldOf(lines[|lines| - 1])]
  }

  /** One more line: its pair, the name before the first ':' and the trimmed second piece, is collected last. */
  lemma PairsStep(lines: seq<string>, i: nat)
    requires i < |lines| && forall k :: 0 <= k < |lines| ==> ':' in lines[k]
    ensures |Split(lines[i], ":")| >= 2
    ensures var ps := Split(lines[i], ":");
      LH.Collect(Pairs(lines[..i + 1])) == LH.Appended(LH.Collect(Pairs(lines[..i])), ps[0], TrimPrefix(ps[1], " "))
  {
    SplitsAtChar(lines[i], ':');
    assert lines[..i + 1][..i] == lines[..i];
    var ps := Split(lines[i], ":");
    LH.CollectSnoc(Pairs(lines[..i]), ps[0], TrimPrefix(ps[1], " "));
  }

  /** parseHeaders: every line's value under its name, in the order of the lines. */
  method ParseHeaders(headersStr: seq<string>) returns (header: LH.Header)
    requires forall k :: 0 <= k < |headersStr| ==> ':' in headersStr[k]
    ensures header == LH.Collect(Pairs(headersStr))
  {
    header := map[];
    for i := 0 to |headersStr|
      invariant header == LH.Collect(Pairs(headersStr[..i]))
    {
      var headerStr := headersStr[i];
      var headerSplit := Split(headerStr, ":");
      SplitsAtChar(headerStr, ':');
      var key := headerSplit[0];
      var val := headerSplit[1];
      val := TrimPrefix(val, " ");
      PairsStep(headersStr, i);
      header := header[key := LH.ValuesAt(header, key) + [val]];
    }
    assert headersStr[..|headersStr|] == headersStr;
  }

  /**
   * The value stops at the next ':' and loses a leading space only when it
   * has one: "name: host:port" gives the host alone and the port is lost,
   * and "name:v" gives "v".
   */
  lemma ValueStopsAtColon(key: string, v: string, more: string)
    requires ':' !in key && ':' !in v && (more == "" || more[0] == ':')
    ensures FieldOf(key + ":" + v + more) == (key, TrimPrefix(v, " "))
  {
    var line := key + ":" + v + more;
    var r := v + more;
    assert line == key + [':'] + r;
    SplitAtChar(key, ':', r);
    FirstPiece(r, ':');
    UpToChar(r, v, more, Split(r, ":")[0], ':');
  }

  /** A value led by one space loses exactly that space. */
  lemma TrimOneSpace(host: string)
    ensures TrimPrefix(" " + host, " ") == host
  {
    assert HasPrefix(" " + host, " ");
  }

  /** An illustration of ValueStopsAtColon, on the case the source's own comment shows: the Host field keeps "localhost" and drops the port. */
  lemma HostLosesPort()
    ensures FieldOf("Host: localhost:8080") == ("Host", "localhost")
  {
    assert "Host" + ":" + " localhost" + ":8080" == "Host: localhost:8080";
    assert " localhost" == " " + "localhost";
    assert ':' !in "Host" && ':' !in " localhost" && ":8080"[0] == ':';
    ValueStopsAtColon("Host", " localhost", ":8080");
    TrimOneSpace("localhost");
  }

  // ---------------------------------------------------------------------
  // The whole message
  // ---------------------------------------------------------------------

  /**
   * What parseRequest asks of its input without saying so: a request line
   * of three fields and a ':' in every piece, the request line included.
   */
  predicate CanParse(req: string) {
    var parts := Split(req, CRLF);
    HasThreeFields(parts[0]) && forall k :: 0 <= k < |parts| ==> ':' in parts[k]
  }

  /** The request that parseRequest builds: every piece is read as a field line. */
  function RequestOf(req: string): Request
    requires CanParse(req)
  {
    var parts := Split(req, CRLF);
    Request(ParseRequestLine(parts[0]), LH.Collect(Pairs(parts)))
  }

  /** A piece of a split at CRLF is not CRLF and has no CRLF to trim. */
  lemma NoLineBreak(p: string)
    requires !Contains(p, CRLF)
    ensures p != CRLF && TrimSuffix(p, CRLF) == p
  {
    ContainsSelf(CRLF);
    if HasSuffix(p, CRLF) {
      var x := p[..|p| - 2];
      assert p == x + CRLF + "";
      ContainsWithin(x, CRLF, "", CRLF);
    }
  }

  /**
   * parseRequest: the filter on CRLF pieces keeps every piece, since the
   * split has already removed every CRLF, and the slice it walks starts at
   * the request line, so every piece becomes a field line.
   */
  method ParseRequest(req: string) returns (r: Request)
    requires CanParse(req)
    ensures r == RequestOf(req)
  {
    var reqStr := req;
    var reqByLineBreak := Split(reqStr, CRLF);
    PiecesLackSeparator(reqStr, CRLF);
    var requestLineStr := reqByLineBreak[0];
    var headersAndEntityBody := reqByLineBreak[0..];
    var headers: seq<string> := [];
    for i := 0 to |headersAndEntityBody|
      invariant headers == headersAndEntityBody[..i]
    {
      var reqVal := headersAndEntityBody[i];
      NoLineBreak(reqVal);
      if reqVal != CRLF {
        headers := headers + [TrimSuffix(reqVal, CRLF)];
      }
      assert headersAndEntityBody[..i + 1] == headersAndEntityBody[..i] + [reqVal];
    }
    assert headers == reqByLineBreak;
    var requestLine := ParseRequestLine(requestLineStr);
    var header := ParseHeaders(headers);
    return Request(requestLine, header);
  }

  /**
   * No message that ends in CRLF, as every complete HTTP request does, can
   * be parsed: the last piece is empty, so it has no ':'.
   */
  lemma TerminatedRequestsFail(req: string)
    requires HasSuffix(req, CRLF)
    ensures !CanParse(req)
  {
    var before := req[..|req| - 2];
    assert req == before + CRLF + "";
    assert !Contains("", CRLF);
    LastPiece(req, before, CRLF, "");
  }

  /** The request line is itself read as a field line: its text before the first ':' becomes a header name. */
  lemma RequestLineBecomesField(req: string)
    requires CanParse(req)
    ensures FieldOf(Split(req, CRLF)[0]).0 in RequestOf(req).header
  {
    var parts := Split(req, CRLF);
    LH.NamedPairCollected(Pairs(parts), 0);
    PairsAt(parts, 0);
  }

  /** The pair of a line is its field. */
  lemma {:induction false} PairsAt(lines: seq<string>, i: nat)
    requires forall k :: 0 <= k < |lines| ==> ':' in lines[k]
    requires i < |lines|
    ensures Pairs(lines)[i] == FieldOf(lines[i])
    decreases |lines|
  {
    if i < |lines| - 1 {
      PairsAt(lines[..|lines| - 1], i);
    }
  }

  // ---------------------------------------------------------------------
  // The evidently intended parseRequest
  // ---------------------------------------------------------------------

  /** The pieces that are not empty, in order. */
  function NonEmpty(ps: seq<string>): seq<string>
    decreases |ps|
  {
    if ps == [] then [] else (if ps[0] == "" then [] else [ps[0]]) + NonEmpty(ps[1..])
  }

  /**
   * What parseRequest evidently means to ask of its input once its loop
   * starts after the request line and skips the empty pieces (the blank
   * line that ends the head, and the empty piece after the final CRLF): a
   * request line of three fields and a ':' in every field line.
   */
  predicate CanParseCorrected(req: string) {
    var parts := Split(req, CRLF);
    var lines := NonEmpty(parts[1..]);
    HasThreeFields(parts[0]) && forall k :: 0 <= k < |lines| ==> ':' in lines[k]
  }

  /** The request that the corrected parseRequest builds: the non-empty pieces after the request line are its field lines. */
  function CorrectedRequestOf(req: string): Request
    requires CanParseCorrected(req)
  {
    var parts := Split(req, CRLF);
    Request(ParseRequestLine(parts[0]), LH.Collect(Pairs(NonEmpty(parts[1..]))))
  }

  /**
   * A head as a client sends it, "line CRLF field-line CRLF ... CRLF CRLF":
   * as written it cannot be parsed (its last piece is empty, and the source
   * indexes out of range), while the corrected parse reads back the request
   * line and exactly the fields of the field lines, in order.
   */
  lemma CorrectedReadsHead(line: string, fieldLines: seq<string>)
    requires !Contains(line, CRLF) && HasThreeFields(line)
    requires forall k :: 0 <= k < |fieldLines| ==> !Contains(fieldLines[k], CRLF) && ':' in fieldLines[k]
    ensures var req := Join([line] + fieldLines + ["", ""], CRLF);
      && !CanParse(req)
      && CanParseCorrected(req)
      && CorrectedRequestOf(req) == Request(ParseRequestLine(line), LH.Collect(Pairs(fieldLines)))
  {
    var parts := [line] + fieldLines + ["", ""];
    HeadSplits(line, fieldLines);
    assert ':' !in parts[|parts| - 1];
    HeadFieldLines(line, fieldLines);
  }

  /** The non-empty pieces after the request line of such a head are its field lines. */
  lemma HeadFieldLines(line: string, fieldLines: seq<string>)
    requires forall k :: 0 <= k < |fieldLines| ==> ':' in fieldLines[k]
    ensures NonEmpty(([line] + fieldLines + ["", ""])[1..]) == fieldLines
  {
    assert ([line] + fieldLines + ["", ""])[1..] == fieldLines + ["", ""];
    forall k | 0 <= k < |fieldLines| ensures fieldLines[k] != "" {
      assert ':' in fieldLines[k];
    }
    NonEmptyDropsBlank(fieldLines);
  }

  /** Splitting such a head at CRLF gives back its lines and the two empty pieces. */
  lemma HeadSplits(line: string, fieldLines: seq<string>)
    requires !Contains(line, CRLF)
    requires forall k :: 0 <= k < |fieldLines| ==> !Contains(fieldLines[k], CRLF)
    ensures Split(Join([line] + fieldLines + ["", ""], CRLF), CRLF) == [line] + fieldLines + ["", ""]
  {
    HeadLacksCRLF(line, fieldLines);
    SplitJoinLines([line] + fieldLines + ["", ""]);
  }

  /** No line of such a head holds a CRLF. */
  lemma HeadLacksCRLF(line: string, fieldLines: seq<string>)
    requires !Contains(line, CRLF)
    requires forall k :: 0 <= k < |fieldLines| ==> !Contains(fieldLines[k], CRLF)
    ensures var parts := [line] + fieldLines + ["", ""];
      forall k :: 0 <= k < |parts| ==> !Contains(parts[k], CRLF)
  {
    var head := [line] + fieldLines;
    var parts := head + ["", ""];
    assert !Contains("", CRLF);
    forall k | 0 <= k < |parts|
      ensures !Contains(parts[k], CRLF)
    {
      if k < |head| {
        if k > 0 {
          assert head[k] == fieldLines[k - 1];
        }
        assert parts[k] == head[k];
      } else {
        assert parts[k] == "";
      }
    }
  }

  /** The two empty pieces that end a head are dropped, and the non-empty lines before them kept. */
  lemma {:induction false} NonEmptyDropsBlank(ls: seq<string>)
    requires forall k :: 0 <= k < |ls| ==> ls[k] != ""
    ensures NonEmpty(ls + ["", ""]) == ls
    decreases |ls|
  {
    if ls == [] {
      assert ["", ""][1..] == [""];
      assert [""][1..] == [];
      assert ls + ["", ""] == ["", ""];
    } else {
      assert (ls + ["", ""])[1..] == ls[1..] + ["", ""];
      NonEmptyDropsBlank(ls[1..]);
      assert ls == [ls[0]] + ls[1..];
    }
  }
}
