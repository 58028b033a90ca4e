/**
 * The request line of an HTTP/1.1 request (section 3 of RFC 9112):
 * method SP request-target SP HTTP-version. Both request parsers of the
 * repository (pihttp/internal/request and httpfromtcp/internal/request)
 * carry the same parseRequestLine, validateMethod, isAllCaps and
 * validateHTTPVersion; they are defined once here.
 */
module RequestLine {
  import opened Wrappers
  import opened Text

  /** The only version accepted, as it appears on the wire. */
  const HttpVersionSupported: string := "HTTP/1.1"

  /** AllMethods: the methods of section 9 of RFC 9110, and PATCH. */
  const AllMethods: seq<string> := ["GET", "HEAD", "POST", "PUT", "PATCH", "DELETE", "CONNECT", "OPTIONS", "TRACE"]

  /** HttpVersion holds the part after "HTTP/", so "1.1". */
  datatype RequestLine = RequestLine(httpVersion: string, requestTarget: string, httpMethod: string)

  datatype LineError =
    | NotThreeParts(line: string)        // the line does not split into exactly three parts at single spaces
    | MethodNotAllCaps(httpMethod: string)   // a character of the method is not an upper-case letter
    | MethodUnsupported(httpMethod: string)  // upper-case, but not one of AllMethods
    | VersionMalformed(version: string)  // the version does not split into two parts at '/'
    | VersionUnsupported(version: string) // two parts, but not HTTP/1.1

  predicate IsLetter(c: char) {
    'a' <= c <= 'z' || 'A' <= c <= 'Z'
  }

  predicate IsUpper(c: char) {
    'A' <= c <= 'Z'
  }

  predicate AllCaps(s: string) {
    forall i :: 0 <= i < |s| ==> IsLetter(s[i]) && IsUpper(s[i])
  }

  /** isAllCaps: every character is a letter and upper case; the empty method passes. */
  method IsAllCaps(s: string) returns (b: bool)
    ensures b == AllCaps(s)
  {
    for i := 0 to |s|
      invariant forall j :: 0 <= j < i ==> IsLetter(s[j]) && IsUpper(s[j])
    {
      var r := s[i];
      if !IsLetter(r) {
        return false;
      }
      if !IsUpper(r) {
        return false;
      }
    }
    return true;
  }

  /** The verdict of validateMethod: capitals first, then membership. */
  function CheckMethod(httpMethod: string): (e: Option<LineError>)
    ensures e == None <==> httpMethod in AllMethods
  {
    if !AllCaps(httpMethod) then Some(MethodNotAllCaps(httpMethod))
    else if httpMethod !in AllMethods then Some(MethodUnsupported(httpMethod))
    else None
  }

  /** Which failure validateMethod reports: capitals are checked before membership. */
  lemma CheckMethodReports(httpMethod: string)
    ensures !AllCaps(httpMethod) ==> CheckMethod(httpMethod) == Some(MethodNotAllCaps(httpMethod))
    ensures AllCaps(httpMethod) && httpMethod !in AllMethods ==> CheckMethod(httpMethod) == Some(MethodUnsupported(httpMethod))
  {
  }

  /** validateMethod, with its loops. */
  method ValidateMethod(httpMethod: string) returns (err: Option<LineError>)
    ensures err == CheckMethod(httpMethod)
  {
    var caps := IsAllCaps(httpMethod);
    if !caps {
      return Some(MethodNotAllCaps(httpMethod));
    }
    for i := 0 to |AllMethods|
      invariant forall j :: 0 <= j < i ==> AllMethods[j] != httpMethod
    {
      if AllMethods[i] == httpMethod {
        return None;
      }
    }
    return Some(MethodUnsupported(httpMethod));
  }

  /** validateHTTPVersion: the version and its parts at '/'. */
  function CheckVersion(httpV: string, httpVSplit: seq<string>): (e: Option<LineError>)
    ensures e == None <==> |httpVSplit| == 2 && httpV == HttpVersionSupported
  {
    if |httpVSplit| != 2 then Some(VersionMalformed(httpV))
    else if httpV != HttpVersionSupported then Some(VersionUnsupported(httpV))
    else None
  }

  /** Which failure validateHTTPVersion reports: the shape is checked before the version. */
  lemma CheckVersionReports(httpV: string, httpVSplit: seq<string>)
    ensures |httpVSplit| != 2 ==> CheckVersion(httpV, httpVSplit) == Some(VersionMalformed(httpV))
    ensures |httpVSplit| == 2 && httpV != HttpVersionSupported ==> CheckVersion(httpV, httpVSplit) == Some(VersionUnsupported(httpV))
  {
  }

  /** The request line of a line of text that holds no CRLF. */
  function ParseLineText(line: string): Result<RequestLine, LineError> {
    var parts := Split(line, " ");
    if |parts| != 3 then Err(NotThreeParts(line))
    else
      var httpMethod := parts[0];
      var target := parts[1];
      var fullHttpV := parts[2];
      var httpVSplit := Split(fullHttpV, "/");
      match CheckMethod(httpMethod)
      case Some(e) => Err(e)
      case None =>
        match CheckVersion(fullHttpV, httpVSplit)
        case Some(e) => Err(e)
        case None => Ok(RequestLine(httpVSplit[1], target, httpMethod))
  }

  /**
   * Which failure the request line reports: the part count first, then the
   * method, then the version, as parseRequestLine checks them.
   */
  lemma ParseLineTextReports(line: string)
    ensures var parts := Split(line, " ");
      |parts| != 3 ==> ParseLineText(line) == Err(NotThreeParts(line))
    ensures var parts := Split(line, " ");
      |parts| == 3 && CheckMethod(parts[0]).Some? ==> ParseLineText(line) == Err(CheckMethod(parts[0]).value)
    ensures var parts := Split(line, " ");
      |parts| == 3 && CheckMethod(parts[0]).None? && CheckVersion(parts[2], Split(parts[2], "/")).Some? ==>
        ParseLineText(line) == Err(CheckVersion(parts[2], Split(parts[2], "/")).value)
  {
  }

  /** How a client writes a request line. */
  function Format(rl: RequestLine): string {
    rl.httpMethod + " " + rl.requestTarget + " " + ("HTTP/" + rl.httpVersion)
  }

  /** A request line that the parser can produce. */
  predicate Acceptable(rl: RequestLine) {
    rl.httpMethod in AllMethods && rl.httpVersion == "1.1" && ' ' !in rl.requestTarget
  }

  lemma MethodsHaveNoSpace(httpMethod: string)
    requires httpMethod in AllMethods
    ensures ' ' !in httpMethod
  {
  }

  lemma VersionSplit()
    ensures Split(HttpVersionSupported, "/") == ["HTTP", "1.1"]
  {
    assert HttpVersionSupported == Join(["HTTP", "1.1"], ['/']);
    SplitJoin(["HTTP", "1.1"], '/');
  }

  lemma VersionText()
    ensures "HTTP/" + "1.1" == HttpVersionSupported
  {
  }

  lemma Join3(a: string, b: string, c: string, sep: string)
    ensures Join([a, b, c], sep) == a + sep + b + sep + c
  {
    assert [a, b, c][1..] == [b, c];
    assert [b, c][1..] == [c];
    assert Join([b, c], sep) == b + sep + c;
    assert Join([a, b, c], sep) == a + sep + (b + sep + c);
  }

  /**
   * The parser accepts exactly the lines "METHOD SP target SP HTTP/1.1"
   * with a supported method and a target without spaces, and returns
   * their three parts.
   */
  lemma ParseLineTextExactly(line: string, rl: RequestLine)
    ensures ParseLineText(line) == Ok(rl) <==> Acceptable(rl) && line == Format(rl)
  {
    if Acceptable(rl) && line == Format(rl) {
      ParseLineTextComplete(rl);
    }
    if ParseLineText(line) == Ok(rl) {
      ParseLineTextSound(line);
      assert ParseLineText(line).value == rl;
    }
  }

  lemma {:induction false} ParseLineTextComplete(rl: RequestLine)
    requires Acceptable(rl)
    ensures ParseLineText(Format(rl)) == Ok(rl)
  {
    var parts := [rl.httpMethod, rl.requestTarget, HttpVersionSupported];
    MethodsHaveNoSpace(rl.httpMethod);
    Join3(rl.httpMethod, rl.requestTarget, HttpVersionSupported, " ");
    VersionText();
    assert Format(rl) == Join(parts, [' ']);
    SplitJoin(parts, ' ');
    VersionSplit();
  }

  lemma {:induction false} ParseLineTextSound(line: string)
    requires ParseLineText(line).Ok?
    ensures var rl := ParseLineText(line).value; Acceptable(rl) && line == Format(rl)
  {
    AcceptedParts(line);
    VersionText();
    ThreeParts(line, Split(line, " "));
  }

  /** Three parts split at spaces: the line is them joined with spaces, and the middle one holds none. */
  lemma ThreeParts(line: string, parts: seq<string>)
    requires parts == Split(line, " ") && |parts| == 3
    ensures line == parts[0] + " " + parts[1] + " " + parts[2] && ' ' !in parts[1]
  {
    SplitJoins(line, " ");
    assert !Contains(parts[1], " ");
    ContainsChar(parts[1], ' ');
    assert parts == [parts[0], parts[1], parts[2]];
    Join3(parts[0], parts[1], parts[2], " ");
  }

  /** An accepted line has three parts: a supported method, the target, and HTTP/1.1. */
  lemma AcceptedParts(line: string)
    requires ParseLineText(line).Ok?
    ensures var parts := Split(line, " ");
      && |parts| == 3 && parts[0] in AllMethods && parts[2] == HttpVersionSupported
      && ParseLineText(line).value == RequestLine("1.1", parts[1], parts[0])
  {
    VersionSplit();
  }

  /** What parseRequestLine does with the bytes buffered so far. */
  datatype LineStep =
    | NeedMore                          // no CRLF yet: nothing consumed
    | LineParsed(rl: RequestLine, n: nat) // the line and its CRLF, n bytes, consumed
    | LineFailed(e: LineError)

  /** parseRequestLine: wait for a CRLF, then read the text before it. */
  function ParseRequestLine(data: string): LineStep {
    var idx := Index(data, CRLF);
    if idx == -1 then NeedMore
    else
      var requestText := data[..idx];
      var requestLine := Split(requestText, CRLF)[0];
      match ParseLineText(requestLine)
      case Err(e) => LineFailed(e)
      case Ok(rl) => LineParsed(rl, |requestLine| + |CRLF|)
  }

  /** Only the first line counts: "line CRLF rest" is judged by `line` alone, and the line and its CRLF are consumed. */
  lemma ParseRequestLineFirstLine(line: string, rest: string)
    requires !Contains(line, CRLF)
    ensures ParseRequestLine(line + CRLF + rest) ==
      match ParseLineText(line)
      case Err(e) => LineFailed(e)
      case Ok(rl) => LineParsed(rl, |line| + 2)
  {
    var data := line + CRLF + rest;
    LineEnd(line, rest);
    assert data[..|line|] == line;
    SplitWithout(line);
    ParseRequestLineAt(data, |line|);
  }

  /** The text of a line that holds no CRLF is split into itself alone. */
  lemma SplitWithout(line: string)
    requires !Contains(line, CRLF)
    ensures Split(line, CRLF) == [line]
  {
  }

  /** parseRequestLine once the first CRLF is at `idx`: the text before it is judged. */
  lemma ParseRequestLineAt(data: string, idx: nat)
    requires Index(data, CRLF) == idx && Split(data[..idx], CRLF) == [data[..idx]]
    ensures ParseRequestLine(data) ==
      match ParseLineText(data[..idx])
      case Err(e) => LineFailed(e)
      case Ok(rl) => LineParsed(rl, idx + 2)
  {
  }

  /**
   * A parsed line is an acceptable one, and what is consumed is exactly
   * its text and the CRLF after it.
   */
  lemma ParseRequestLineParsed(data: string)
    requires ParseRequestLine(data).LineParsed?
    ensures var step := ParseRequestLine(data);
      && step.n <= |data|
      && Acceptable(step.rl)
      && data[..step.n] == Format(step.rl) + CRLF
  {
    var idx := Index(data, CRLF);
    ParsedAt(data, idx);
    ParseLineTextSound(data[..idx]);
  }

  /** A parsed line is the text before the first CRLF, and that CRLF follows it. */
  lemma ParsedAt(data: string, idx: int)
    requires ParseRequestLine(data).LineParsed? && Index(data, CRLF) == idx
    ensures 0 <= idx && idx + 2 <= |data| && data[..idx + 2] == data[..idx] + CRLF
    ensures ParseLineText(data[..idx]).Ok?
    ensures ParseRequestLine(data) == LineParsed(ParseLineText(data[..idx]).value, idx + 2)
  {
    assert idx >= 0;
    var line := data[..idx];
    assert Split(line, CRLF) == [line] by {
      BeforeIndex(data, CRLF);
      SplitWithout(line);
    }
    ParseRequestLineAt(data, idx);
    LineBeforeCRLF(data, idx);
  }

  /** Before the CRLF that ends the line has arrived, nothing happens. */
  lemma ParseRequestLinePartial(line: string, rest: string, q: nat)
    requires !Contains(line, CRLF) && q < |line| + 2
    ensures ParseRequestLine((line + CRLF + rest)[..q]) == NeedMore
  {
    PartialLine(line, rest, q);
  }

  /** parseRequestLine's body, shared by both request parsers. */
  method ParseLine(data: string) returns (step: LineStep)
    ensures step == ParseRequestLine(data)
  {
    var idx := Index(data, CRLF);
    if idx == -1 {
      return NeedMore;
    }
    var requestText := data[..idx];
    var requestPerLine := Split(requestText, CRLF);
    var requestLine := requestPerLine[0];
    var requestLinePerSpace := Split(requestLine, " ");
    if |requestLinePerSpace| != 3 {
      return LineFailed(NotThreeParts(requestLine));
    }
    var httpMethod := requestLinePerSpace[0];
    var target := requestLinePerSpace[1];
    var fullHttpV := requestLinePerSpace[2];
    var httpVSplit := Split(fullHttpV, "/");
    var err := ValidateMethod(httpMethod);
    if err.Some? {
      return LineFailed(err.value);
    }
    var verr := CheckVersion(fullHttpV, httpVSplit);
    if verr.Some? {
      return LineFailed(verr.value);
    }
    var httpV := httpVSplit[1];
    return LineParsed(RequestLine(httpV, target, httpMethod), |requestLine| + |CRLF|);
  }
}
