/**
 * Response.encode of the pihttp prototype (pihttp/response.go): the
 * response line, one line per value of every header, a default
 * Content-Length and Content-Type, a blank line and the body.
 */
module PiLegacyResponse {
  import opened Text
  import H = Headers
  import LH = PiLegacyHeader

  /** The name encode compares against to decide whether Content-Type was set: misspelled in the source, so it never matches "Content-Type". */
  const CheckedTypeName: string := "Cotent-Type"

  /** The name encode compares against to decide whether Content-Length was set, matched with case. */
  const LengthName: string := "Content-Length"

  /** The Content-Type line added when the checked name is absent. */
  const DefaultTypeLine: string := "Content-Type: text/html\r\n"

  /** The Content-Length line added when no header is named exactly Content-Length. */
  function DefaultLengthLine(n: nat): string {
    "Content-Length: " + Itoa(n) + CRLF
  }

  /** "version SP code SP text CRLF" */
  function ResponseLine(version: string, code: int, text: string): string {
    version + " " + Itoa(code) + " " + text + CRLF
  }

  /** One "key: value" line per value, in the order of the values. */
  function ValueLines(key: string, vals: seq<string>): string
    decreases |vals|
  {
    if vals == [] then ""
    else ValueLines(key, vals[..|vals| - 1]) + H.FieldLine(key, vals[|vals| - 1])
  }

  /** The value lines of every key, keys taken in `order`. */
  function HeaderLines(h: LH.Header, order: seq<string>): string
    requires forall i :: 0 <= i < |order| ==> order[i] in h
    decreases |order|
  {
    if order == [] then ""
    else
      var k := order[|order| - 1];
      HeaderLines(h, order[..|order| - 1]) + ValueLines(k, h[k])
  }

  /** The default length line, unless a key is named exactly Content-Length. */
  function LengthDefault(h: LH.Header, bodyLen: nat): string {
    if LengthName in h then "" else DefaultLengthLine(bodyLen)
  }

  /** The default type line, unless a key is the misspelled name. */
  function TypeDefault(h: LH.Header): string {
    if CheckedTypeName in h then "" else DefaultTypeLine
  }

  datatype Response = Response(header: LH.Header, statusCode: int, body: string, httpVersion: string) {

    /** The bytes encode produces when the header map is walked in `order`. */
    function Encoding(text: string, order: seq<string>): string
      requires forall i :: 0 <= i < |order| ==> order[i] in header
    {
      ResponseLine(httpVersion, statusCode, text) + HeaderLines(header, order) + LengthDefault(header, |body|) + TypeDefault(header)
        + CRLF + body
    }

    /**
     * encode: the response line, the lines of the header walk, the
     * defaults the walk did not rule out, a blank line and the body.
     */
    method Encode(statusText: int -> string) returns (out: string, ghost order: seq<string>)
      ensures H.Enumerates(order, header.Keys)
      ensures out == Encoding(statusText(statusCode), order)
    {
      var responseLine := ResponseLine(httpVersion, statusCode, statusText(statusCode));
      var respBuff := responseLine;
      var lines, hasContenTypeHeader, hasContenLengthHeader;
      lines, hasContenTypeHeader, hasContenLengthHeader, order := WalkHeaders(header);
      respBuff := respBuff + lines;
      if !hasContenLengthHeader {
        respBuff := respBuff + DefaultLengthLine(|body|);
      } else {
        assert respBuff + "" == respBuff;
      }
      if !hasContenTypeHeader {
        respBuff := respBuff + DefaultTypeLine;
      } else {
        assert respBuff + "" == respBuff;
      }
      respBuff := respBuff + CRLF;
      respBuff := respBuff + body;
      return respBuff, order;
    }
  }

  /**
   * The loop of encode over the header map: every value of every key as
   * its own line, in the order the map is walked, noting on the way
   * whether the names compared against were seen.
   */
  method WalkHeaders(header: LH.Header) returns (lines: string, hasContenTypeHeader: bool, hasContenLengthHeader: bool, ghost order: seq<string>)
    ensures H.Enumerates(order, header.Keys)
    ensures lines == HeaderLines(header, order)
    ensures hasContenTypeHeader <==> CheckedTypeName in header
    ensures hasContenLengthHeader <==> LengthName in header
  {
    lines := "";
    hasContenTypeHeader := false;
    hasContenLengthHeader := false;
    order := [];
    var remaining := header.Keys;
    while remaining != {}
      invariant remaining <= header.Keys
      invariant forall i :: 0 <= i < |order| ==> order[i] in header && order[i] !in remaining
      invariant forall k :: k in header.Keys ==> k in remaining || k in order
      invariant forall i, j :: 0 <= i < j < |order| ==> order[i] != order[j]
      invariant hasContenTypeHeader <==> CheckedTypeName in header && CheckedTypeName !in remaining
      invariant hasContenLengthHeader <==> LengthName in header && LengthName !in remaining
      invariant lines == HeaderLines(header, order)
      decreases remaining
    {
      var headerKey :| headerKey in remaining;
      if headerKey == CheckedTypeName {
        hasContenTypeHeader := true;
      }
      if headerKey == LengthName {
        hasContenLengthHeader := true;
      }
      var valueLines := WriteValues(headerKey, header[headerKey]);
      lines := lines + valueLines;
      assert (order + [headerKey])[..|order|] == order;
      order := order + [headerKey];
      remaining := remaining - {headerKey};
    }
  }

  /** The inner loop of encode: one line per value of a key. */
  method WriteValues(headerKey: string, headerVal: seq<string>) returns (lines: string)
    ensures lines == ValueLines(headerKey, headerVal)
  {
    lines := "";
    for j := 0 to |headerVal|
      invariant lines == ValueLines(headerKey, headerVal[..j])
    {
      assert headerVal[..j + 1][..j] == headerVal[..j];
      lines := lines + H.FieldLine(headerKey, headerVal[j]);
    }
    assert headerVal[..|headerVal|] == headerVal;
  }

  /** Every value given for a key has its line among that key's lines. */
  lemma {:induction false} ValueLineIn(key: string, vals: seq<string>, j: nat)
    requires j < |vals|
    ensures Contains(ValueLines(key, vals), H.FieldLine(key, vals[j]))
    decreases |vals|
  {
    var n := |vals| - 1;
    var init := ValueLines(key, vals[..n]);
    if j < n {
      ValueLineIn(key, vals[..n], j);
      ContainsWithin("", init, H.FieldLine(key, vals[n]), H.FieldLine(key, vals[j]));
      assert "" + init + H.FieldLine(key, vals[n]) == ValueLines(key, vals);
    } else {
      ContainsSelf(H.FieldLine(key, vals[j]));
      ContainsWithin(init, H.FieldLine(key, vals[j]), "", H.FieldLine(key, vals[j]));
      assert init + H.FieldLine(key, vals[j]) + "" == ValueLines(key, vals);
    }
  }

  /** Every value of every key walked has its line among the header lines. */
  lemma {:induction false} HeaderLineIn(h: LH.Header, order: seq<string>, i: nat, j: nat)
    requires forall x :: 0 <= x < |order| ==> order[x] in h
    requires i < |order| && j < |h[order[i]]|
    ensures Contains(HeaderLines(h, order), H.FieldLine(order[i], h[order[i]][j]))
    decreases |order|
  {
    var n := |order| - 1;
    var line := H.FieldLine(order[i], h[order[i]][j]);
    var init := HeaderLines(h, order[..n]);
    var last := ValueLines(order[n], h[order[n]]);
    if i < n {
      HeaderLineIn(h, order[..n], i, j);
      ContainsWithin("", init, last, line);
      assert "" + init + last == HeaderLines(h, order);
    } else {
      ValueLineIn(order[n], h[order[n]], j);
      ContainsWithin(init, last, "", line);
      assert init + last + "" == HeaderLines(h, order);
    }
  }

  /** Every value of every header is sent, each on its own "key: value" line, with the key as stored. */
  lemma EveryValueSent(r: Response, text: string, order: seq<string>, key: string, j: nat)
    requires H.Enumerates(order, r.header.Keys)
    requires key in r.header && j < |r.header[key]|
    ensures Contains(r.Encoding(text, order), H.FieldLine(key, r.header[key][j]))
  {
    var i :| 0 <= i < |order| && order[i] == key;
    var line := H.FieldLine(key, r.header[key][j]);
    var rl := ResponseLine(r.httpVersion, r.statusCode, text);
    var hl := HeaderLines(r.header, order);
    var ld := LengthDefault(r.header, |r.body|);
    var td := TypeDefault(r.header);
    HeaderLineIn(r.header, order, i, j);
    ContainsAfter(rl, hl, line);
    ContainsExtends(rl + hl, ld, line);
    ContainsExtends(rl + hl + ld, td, line);
    ContainsExtends(rl + hl + ld + td, CRLF, line);
    ContainsExtends(rl + hl + ld + td + CRLF, r.body, line);
  }

  /** The output starts with the response line and ends with a blank line and the body as given. */
  lemma Framing(r: Response, text: string, order: seq<string>)
    requires H.Enumerates(order, r.header.Keys)
    ensures HasPrefix(r.Encoding(text, order), ResponseLine(r.httpVersion, r.statusCode, text))
    ensures HasSuffix(r.Encoding(text, order), CRLF + r.body)
  {
    var rl := ResponseLine(r.httpVersion, r.statusCode, text);
    var hl := HeaderLines(r.header, order);
    var ld := LengthDefault(r.header, |r.body|);
    var td := TypeDefault(r.header);
    assert HasPrefix(rl, rl);
    PrefixExtends(rl, rl, hl);
    PrefixExtends(rl + hl, rl, ld);
    PrefixExtends(rl + hl + ld, rl, td);
    PrefixExtends(rl + hl + ld + td, rl, CRLF);
    PrefixExtends(rl + hl + ld + td + CRLF, rl, r.body);
    SuffixOfLastTwo(rl + hl + ld + td, CRLF, r.body);
  }

  /**
   * The default Content-Type is added whenever no key is the misspelled
   * name, so a Content-Type the caller sets is sent as well as the
   * default, twice in all.
   */
  lemma ContentTypeDuplicated(r: Response, text: string, order: seq<string>, j: nat)
    requires H.Enumerates(order, r.header.Keys)
    requires CheckedTypeName !in r.header
    requires "Content-Type" in r.header && j < |r.header["Content-Type"]|
    ensures Contains(r.Encoding(text, order), H.FieldLine("Content-Type", r.header["Content-Type"][j]))
    ensures HasSuffix(r.Encoding(text, order), DefaultTypeLine + CRLF + r.body)
  {
    EveryValueSent(r, text, order, "Content-Type", j);
    DefaultTypeLast(r, text, order);
  }

  /** Without the misspelled name, the default Content-Type line comes right before the blank line. */
  lemma DefaultTypeLast(r: Response, text: string, order: seq<string>)
    requires H.Enumerates(order, r.header.Keys)
    requires CheckedTypeName !in r.header
    ensures HasSuffix(r.Encoding(text, order), DefaultTypeLine + CRLF + r.body)
  {
    var front := ResponseLine(r.httpVersion, r.statusCode, text) + HeaderLines(r.header, order);
    SuffixOfLastThree(front + LengthDefault(r.header, |r.body|), DefaultTypeLine, CRLF, r.body);
  }

  /**
   * The Content-Length check is case-sensitive: a length set under any
   * other spelling is sent, and the default length line is sent too.
   */
  lemma ContentLengthCaseSensitive(r: Response, text: string, order: seq<string>, key: string, j: nat)
    requires H.Enumerates(order, r.header.Keys)
    requires LengthName !in r.header
    requires key in r.header && j < |r.header[key]|
    ensures Contains(r.Encoding(text, order), H.FieldLine(key, r.header[key][j]))
    ensures Contains(r.Encoding(text, order), DefaultLengthLine(|r.body|))
  {
    EveryValueSent(r, text, order, key, j);
    DefaultLengthSent(r, text, order);
  }

  /** With no key named exactly Content-Length, the default length line follows the header lines. */
  lemma DefaultLengthSent(r: Response, text: string, order: seq<string>)
    requires H.Enumerates(order, r.header.Keys)
    requires LengthName !in r.header
    ensures Contains(r.Encoding(text, order), DefaultLengthLine(|r.body|))
  {
    var front := ResponseLine(r.httpVersion, r.statusCode, text) + HeaderLines(r.header, order);
    var line := DefaultLengthLine(|r.body|);
    var typeLine := TypeDefault(r.header);
    ContainsSelf(line);
    ContainsAfter(front, line, line);
    ContainsExtends(front + line, typeLine, line);
    ContainsExtends(front + line + typeLine, CRLF, line);
    ContainsExtends(front + line + typeLine + CRLF, r.body, line);
  }
}
