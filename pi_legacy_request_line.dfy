/**
 * The request line of the pihttp prototype (pihttp/request_line.go): the
 * method, the URI as sent, its path and the version, with RawQuery, which
 * reads the query out of the URI.
 */
module PiLegacyRequestLine {
  import opened Text

  datatype RequestLine = RequestLine(httpMethod: string, uri: string, path: string, httpVersion: string) {

    /**
     * RawQuery: the second piece of the URI split at '?'. Split always
     * returns a piece, so the guard on an empty split never fires, and a
     * URI without '?' has no second piece: the source panics there, so the
     * '?' is required of the caller.
     */
    function RawQuery(): string
      requires '?' in uri
    {
      var uriSplited := Split(uri, "?");
      SplitsAtChar(uri, '?');
      if |uriSplited| < 1 then "" else uriSplited[1]
    }
  }

  /**
   * The raw query is the text after the first '?' of the URI, up to the
   * next '?' or the end of the URI.
   */
  lemma RawQueryBetween(rl: RequestLine)
    requires '?' in rl.uri
    ensures var i := Index(rl.uri, "?"); var q := rl.RawQuery();
      && 0 <= i && i + 1 + |q| <= |rl.uri| && rl.uri[i + 1..i + 1 + |q|] == q
      && '?' !in q && (i + 1 + |q| == |rl.uri| || rl.uri[i + 1 + |q|] == '?')
  {
    var i := Index(rl.uri, "?");
    SplitsAtChar(rl.uri, '?');
    FirstPiece(rl.uri[i + 1..], '?');
  }

  /**
   * A URI "path?query" followed by nothing or by another '?': RawQuery
   * returns exactly the query.
   */
  lemma RawQueryOf(rl: RequestLine, path: string, query: string, more: string)
    requires rl.uri == path + "?" + query + more
    requires '?' !in path && '?' !in query && (more == "" || more[0] == '?')
    ensures rl.RawQuery() == query
  {
    IndexOfChar(path, '?', query + more);
    assert rl.uri == path + ['?'] + (query + more);
    RawQueryBetween(rl);
    assert rl.uri[|path| + 1..] == query + more;
    UpToChar(query + more, query, more, rl.RawQuery(), '?');
  }
}
